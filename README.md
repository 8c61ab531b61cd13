# Assisticant binding layer in Dafny

Assisticant is a dependency-tracking MVVM library. Mobile views are bound to
computed model values through a small binding layer, which this project models
and verifies:

* **`Observable<T>`** (module `Fields`) is a value cell.
  - Reading it reports `OnGet` to the dependency tracker.
  - Assigning it reports `OnSet` only when the new value differs from the stored one.
  - The model keeps a trace of those calls next to the stored value.
* **`BindingManager`** (module `BindingManagers`) is the per-element owner of subscriptions.
  - Each of its three `Bind` overloads appends one (output, input) pair of subscriptions.
  - `Unbind` unsubscribes everything held, in list order, without clearing the list.
  - Subscription objects are opaque identities (module `Subscriptions`); the model records the order of the `Subscribe`/`Unsubscribe` calls made on them.
* **`BindingSubscriptions`** (module `BindingSubscriptionLists`) is the output-only variant of the manager.
* **The recycle reconciler** (module `RecycleBins`) is the first pass of a list refresh, shared by the Android `ListView` and iOS `UICollectionView` bindings.
  - The old item containers go into a bin.
  - Each new item takes out the first remaining container whose item is equal to it, or gets a new container.
  - What remains in the bin is disposed.
* **The Android `ListView` binding** (module `ListViewBinding`) reconciles, disposes what is left over, and then places every container at its index in the `ArrayAdapter`'s list.
  - Placement inserts a container never placed before.
  - It moves a reused container that is out of place.
  - It leaves alone one that is already in place.
  - Reused containers keep their `BindingManager` and their cached row view.
* **The iOS `UICollectionView` binding** (module `CollectionViewBinding`) runs the same two passes, addressed by cell.
  - A new container gets a new cell, numbered in list order.
  - A reused one keeps its cell, which is moved to its new index.
* **The iOS `UITableView` binding** (module `TableViewBinding`) does not reuse containers.
  - A refresh unbinds every old row manager, makes a new container per item and reloads the table.
  - `GetCell` unbinds the row's manager and runs the user's `bind` delegate on it again.
* **The Android text binding** (module `TextBinding`) covers the `Identity` and `ConvertInt` converters, `UpdateTextView` and the `TextBinding` input subscription with its two event handlers.
  - `ConvertInt`'s parsing is modelled after .NET `int.TryParse` for the invariant culture.

What is proved, in short:

* **`Observable`:**
  - it notifies exactly on a change;
  - assignments are idempotent;
  - the last assignment wins.
* **`BindingManager` and `BindingSubscriptions`:**
  - unbinding unsubscribes exactly what is held, as often as it is held, in list order;
  - unbinding never subscribes anything.
* **The reconciler's plan:**
  - a reused container holds an equal item;
  - no container is reused twice;
  - a container is disposed exactly when it is not reused;
  - nothing is disposed while an equal new item went without a container.
* **The `ListView` and `UICollectionView` refreshes:**
  - afterwards the view shows exactly the new containers in item order;
  - the reused containers keep their managers, views and cells;
  - the new ones have fresh, empty managers;
  - only the disposed managers are unbound;
  - no two containers share a manager.
* **`UITableView`:** a subscription the `bind` delegate makes is unsubscribed by the row's next `Unbind`.
* **`ConvertInt`:**
  - it reads back every number it writes, with or without surrounding white space;
  - it reads `0` for text that is not a number in range, or that has no digit;
  - it normalises leading zeros and a `+` sign away, so it does not keep the text the user typed.

## Model

| member | source | states |
|---|---|---|
| Fields.Differs | Portable/Fields/Observable.cs:44 | The setter's null-aware guard is true exactly when the new value is not the stored one; two nulls count as equal. |
| Fields.SetUnchanged | Portable/Fields/Observable.cs:43-49 | Assigning the stored value (or null over null) changes neither the value nor the trace, so it makes no `OnSet` call. |
| Fields.SetChanged | Portable/Fields/Observable.cs:43-49 | Assigning a different value makes exactly one `OnSet` call, made while the old value is still stored, and then stores the new value. |
| Fields.SetIdempotent | Portable/Fields/Observable.cs:43-49 | Assigning a value twice in a row has the same effect as assigning it once. |
| Fields.SetAllUnchanged | Portable/Fields/Observable.cs:43-49 | Any run of assignments of the stored value leaves the cell and its trace unchanged. |
| Fields.SetAllLastWins | Portable/Fields/Observable.cs:43-49 | After a non-empty run of assignments the last value is stored; the number of `OnSet` calls grows by at most the number of assignments. |
| Fields.Observable.constructor | Portable/Fields/Observable.cs:23-28 | The parameterless constructor leaves `_value` at `default(T)`, given as a parameter (null for a reference type, the zero value otherwise), and reports nothing. |
| Fields.Observable.WithValue | Portable/Fields/Observable.cs:34 | The constructor with a value stores that value and reports nothing. |
| Fields.Observable.Get | Portable/Fields/Observable.cs:42 | The getter appends one `OnGet` to the trace and returns the stored value unchanged. |
| Fields.Observable.Set | Portable/Fields/Observable.cs:43-49 | The setter matches the specification step; the same value changes nothing, and a different value records `OnSet(old value)` and then stores the new one. |
| Fields.Observable.Convert | Portable/Fields/Observable.cs:53-56 | The implicit conversion behaves exactly like reading `Value`: one `OnGet` and the stored value. |
| BindingManagers.PairOrder | Portable/Binding/BindingManager.cs:50-55 | Within one pair the output is unsubscribed before the input; an empty pair makes no call. |
| BindingManagers.UnbindCallsAppend | Portable/Binding/BindingManager.cs:48-56 | Unbinding a list makes the calls for its prefix, then those for its suffix, so the calls follow list order. |
| BindingManagers.UnbindCallsSnoc | Portable/Binding/BindingManager.cs:48-56 | A pair appended last is unsubscribed last. |
| BindingManagers.UnbindCallsOnlyUnsubscribe | Portable/Binding/BindingManager.cs:48-56 | `Unbind` makes no `Subscribe` call. |
| BindingManagers.UnbindCallsCount | Portable/Binding/BindingManager.cs:48-56 | `Unbind` unsubscribes each subscription exactly as many times as entries hold it. |
| BindingManagers.UnbindCallsCover | Portable/Binding/BindingManager.cs:48-56 | `Unbind` unsubscribes a subscription if and only if some entry of the list holds it. |
| BindingManagers.BindingManager.constructor | Portable/Binding/BindingManager.cs:15-19 | A new manager holds no pairs and has made no calls. |
| BindingManagers.BindingManager.Bind | Portable/Binding/BindingManager.cs:21-27 | Appends a pair with the output only; the only call is the output's creation. |
| BindingManagers.BindingManager.BindInput | Portable/Binding/BindingManager.cs:29-36 | Subscribes the input once, then appends a pair with the input only. |
| BindingManagers.BindingManager.BindBoth | Portable/Binding/BindingManager.cs:38-46 | Subscribes the input, then creates the output, then appends one pair holding both. |
| BindingManagers.BindingManager.Unbind | Portable/Binding/BindingManager.cs:48-56 | Keeps the list and appends the unsubscribe calls for every held subscription, in list order, output before input. |
| BindingSubscriptionLists.UnsubscribeCallsAt | Portable/Binding/BindingSubscriptions.cs:16-20 | There is one `Unsubscribe` per entry, and the k-th call unsubscribes the k-th entry. |
| BindingSubscriptionLists.UnsubscribeCallsCount | Portable/Binding/BindingSubscriptions.cs:16-20 | Each subscription is unsubscribed as often as it occurs in the list; nothing is subscribed. |
| BindingSubscriptionLists.BindingSubscriptions.constructor | Portable/Binding/BindingSubscriptions.cs:9 | A new list is empty and no calls have been made. |
| BindingSubscriptionLists.BindingSubscriptions.Bind | Portable/Binding/BindingSubscriptions.cs:11-14 | Creates the output subscription and appends it at the end. |
| BindingSubscriptionLists.BindingSubscriptions.Unsubscribe | Portable/Binding/BindingSubscriptions.cs:16-20 | Keeps the list and unsubscribes every entry in insertion order. |
| RecycleBins.FindIn | Assisticant.Android/ListViewBindingExtensions.cs:118 | Finds the first container left in the bin whose item equals the one requested, or reports that none is left. |
| RecycleBins.Extract | Assisticant.Android/ListViewBindingExtensions.cs:118 | A hit hands back an old container with an equal item and takes exactly that entry out of the bin; a miss leaves the bin unchanged and means that no equal item is left in it. |
| RecycleBins.Iota | Assisticant.Android/ListViewBindingExtensions.cs:113-114 | The bin starts out holding every old container, in list order. |
| RecycleBins.ReconcileFromInvariant | Assisticant.Android/ListViewBindingExtensions.cs:115-120 | For any bin without repetition, the loop's choices satisfy the reconciliation invariant: matches are equal, reuses are injective, and what is left is exactly the part of the bin not reused and unmatched. |
| RecycleBins.ReconcileSpec | Assisticant.Android/ListViewBindingExtensions.cs:113-121 | There is one choice per new item. A reused container holds an equal item. No old container is reused twice. An old container is left to dispose exactly when it was not reused. None is left while an equal new item got a new container. |
| RecycleBins.ReconcileShape | Assisticant.Android/ListViewBindingExtensions.cs:115-120 | There is one choice per new item, and a reused container holds an equal item. |
| RecycleBins.ReconcileRest | Assisticant.Android/ListViewBindingExtensions.cs:113-121 | Reuses are injective, and the containers to dispose are exactly the old ones not reused, each listed once. |
| RecycleBins.ReconcileExample | iOS/CollectionViewBindingExtensions.cs:93-101 | A refresh from `[a, b]` to `[b, c]` reuses `b`'s container, gives `c` a new one and disposes `a`'s. |
| RecycleBins.ReconcileFromSnoc | Assisticant.Android/ListViewBindingExtensions.cs:115-120 | One more new item is exactly one more `Extract` from the bin that the earlier items left. |
| RecycleBins.GoneStep | Assisticant.Android/ListViewBindingExtensions.cs:121 | Disposing one more old container adds exactly that container to the disposed set. |
| RecycleBins.KeptAreReused | Assisticant.Android/ListViewBindingExtensions.cs:113-121 | Once the leftover containers are gone, an old container remains if and only if it was reused. |
| RecycleBins.ReadyToPlace | Assisticant.Android/ListViewBindingExtensions.cs:121-123 | After the disposals, the host holds exactly the reused containers, each before its target index or at it; this is where placement starts. |
| RecycleBins.NewManagersDistinct | Assisticant.Android/ListViewBindingExtensions.cs:39-51 | After a refresh every container has a manager and no two share one: reused managers stay distinct and new ones are fresh. |
| Sequences.InsertAt | Assisticant.Android/ListViewBindingExtensions.cs:43 | A list insert puts the element at the index and shifts the later elements right. |
| Sequences.RemoveAt | iOS/CollectionViewBindingExtensions.cs:130 | A removal at an index shifts the later elements left and keeps the earlier ones. |
| Sequences.PlacedStart | Assisticant.Android/ListViewBindingExtensions.cs:123 | The placement invariant holds before the first step when the host holds exactly the reused containers. |
| Sequences.PlaceKept | Assisticant.Android/ListViewBindingExtensions.cs:44-46 | A reused container already at its index keeps the placement invariant one step further. |
| Sequences.PlaceFresh | Assisticant.Android/ListViewBindingExtensions.cs:41-43 | Inserting a never-placed container at its index keeps the placement invariant one step further. |
| Sequences.PlaceMove | Assisticant.Android/ListViewBindingExtensions.cs:46-49 | A reused container out of place is found after its index, and removing it and inserting it at the index keeps the placement invariant. |
| ListViewBinding.DuplicateItemsAsWritten | Assisticant.Android/ListViewBindingExtensions.cs:46-49 | With items `[a, b, a]` refreshed to `[a, a, b]`, removal by `Equals` makes the placement loop end with the third container twice and the first one gone. |
| ListViewBinding.DuplicateItemsByReference | Assisticant.Android/ListViewBindingExtensions.cs:46-49 | Removing the container itself instead places the same refresh correctly. |
| Sequences.PlacedDone | Assisticant.Android/ListViewBindingExtensions.cs:123-128 | Once every container has been placed, the host list is exactly the new container list. |
| ListViewBinding.FirstWithItem | Assisticant.Android/ListViewBindingExtensions.cs:62-70 | Finds the first container that `Equals` matches for an item, or none. |
| ListViewBinding.RemoveFirstEqualUnique | Assisticant.Android/ListViewBindingExtensions.cs:48 | When all items differ, removing by `Equals` removes exactly the container at its own position. |
| ListViewBinding.RemoveFromWithout | Assisticant.Android/ListViewBindingExtensions.cs:58 | While the leftovers are disposed (all items differing), `Remove` of one more container takes exactly that container out of the host. |
| ListViewBinding.ItemsDistinctSeq | Assisticant.Android/ListViewBindingExtensions.cs:62-70 | Containers whose items are pairwise different are pairwise different containers. |
| ListViewBinding.UnbindEach | Assisticant.Android/ListViewBindingExtensions.cs:137-140 | Unbinds each container's manager once; no manager's list changes. |
| ListViewBinding.ItemContainer.constructor | Assisticant.Android/ListViewBindingExtensions.cs:21-25 | A new container holds its item and adapter, has no manager yet and no row view. |
| ListViewBinding.ItemContainer.Equals | Assisticant.Android/ListViewBindingExtensions.cs:62-70 | A container equals the same container or any container of an equal item, and never equals null. |
| ListViewBinding.ItemContainer.EqualsHash | Assisticant.Android/ListViewBindingExtensions.cs:62-75 | Containers that `Equals` calls equal have the same `GetHashCode`, and equality is symmetric between them. |
| ListViewBinding.ItemContainer.EnsureInCollection | Assisticant.Android/ListViewBindingExtensions.cs:39-51 | A never-placed container is inserted at the index and then gets a fresh empty manager. A placed one at the index changes nothing. A placed one elsewhere is removed by `Equals` and inserted at the index. |
| ListViewBinding.ItemContainer.Dispose | Assisticant.Android/ListViewBindingExtensions.cs:53-60 | Nothing for a never-placed container; otherwise its manager is unbound and it is removed from the adapter by `Equals`. |
| ListViewBinding.BindingArrayAdapter.constructor | Assisticant.Android/ListViewBindingExtensions.cs:84-92 | A new adapter shows nothing and holds no containers. |
| ListViewBinding.BindingArrayAdapter.Insert | Assisticant.Android/ListViewBindingExtensions.cs:43 | `ArrayAdapter.Insert` puts the container at the index. |
| ListViewBinding.BindingArrayAdapter.GetItem | Assisticant.Android/ListViewBindingExtensions.cs:46 | `GetItem` returns the container at the index. |
| ListViewBinding.BindingArrayAdapter.Remove | Assisticant.Android/ListViewBindingExtensions.cs:48 | `ArrayAdapter.Remove` drops the first container that `Equals` the one given. |
| ListViewBinding.BindingArrayAdapter.GetView | Assisticant.Android/ListViewBindingExtensions.cs:94-109 | A container with a cached row returns it and binds nothing. Otherwise the new row is bound exactly once, with the container's item and manager, and then cached. Only the container's cached row changes: its manager stays, and the adapter's invariant is kept. |
| ListViewBinding.BindingArrayAdapter.Recycle | Assisticant.Android/ListViewBindingExtensions.cs:113-120 | The new containers are those of `Reconcile`'s plan: the picked old container for a reused item, otherwise a distinct new unplaced one holding that item. |
| ListViewBinding.BindingArrayAdapter.Gather | Assisticant.Android/ListViewBindingExtensions.cs:115-120 | For given choices, position `i` holds the picked old container or a new distinct probe with item `i`. |
| ListViewBinding.BindingArrayAdapter.UpdateItems | Assisticant.Android/ListViewBindingExtensions.cs:111-129 | The adapter again shows exactly its containers, in the new item order. Reused ones keep their manager and row view. New ones get fresh empty managers. Exactly the old managers left in the bin are unbound. A container left in the bin leaves the list and keeps its manager and row view. |
| ListViewBinding.BindingArrayAdapter.Unsubscribe | Assisticant.Android/ListViewBindingExtensions.cs:135-141 | Unbinds every container's manager once; the containers' lists of subscriptions are unchanged. |
| ListViewBinding.BindingArrayAdapter.Arrange | Assisticant.Android/ListViewBindingExtensions.cs:113-128 | Disposing the leftovers and placing the new containers leaves the adapter showing them in order, each with its own manager, and unbinds exactly the leftovers. |
| ListViewBinding.BindingArrayAdapter.Rebuild | Assisticant.Android/ListViewBindingExtensions.cs:113-128 | For the containers `Recycle` chose, the adapter ends up showing exactly them. Reused ones keep their manager and row view, new ones get a fresh empty manager and no view, and exactly the bin's leftovers are unbound. |
| ListViewBinding.BindingArrayAdapter.DroppedAfterRecycle | Assisticant.Android/ListViewBindingExtensions.cs:113-120 | A container the bin still holds after the refill is at no position of the new list. |
| RecycleBins.LeftoversDropped | Assisticant.Android/ListViewBindingExtensions.cs:113-120 | When reused positions hold their picked old containers and the other positions hold containers that are not old, no container left in the bin is in the new list. |
| ListViewBinding.BindingArrayAdapter.PlaceAll | Assisticant.Android/ListViewBindingExtensions.cs:123-128 | Starting from the host left by the disposals, the placement loop makes the host exactly the new containers; every one has a manager and no two share one. |
| ListViewBinding.BindingArrayAdapter.PlaceNew | Assisticant.Android/ListViewBindingExtensions.cs:123-128 | Through the bin's choices, the placement loop keeps each reused container's old manager and gives each new one a fresh, empty manager; no two positions end up sharing one. |
| ListViewBinding.BindingArrayAdapter.DisposeRest | Assisticant.Android/ListViewBindingExtensions.cs:113-121 | Disposing what the bin holds removes exactly those containers from the host and unbinds exactly their managers. |
| ListViewBinding.BindingArrayAdapter.DisposeOne | Assisticant.Android/ListViewBindingExtensions.cs:53-60 | One disposal unbinds that container's manager and removes exactly that container from the host. |
| ListViewBinding.BindingArrayAdapter.Place | Assisticant.Android/ListViewBindingExtensions.cs:123-128 | The loop calling `EnsureInCollection(i)` in order leaves the host equal to the new list, with reused managers kept and new ones fresh. |
| ListViewBinding.BindingArrayAdapter.PlaceOne | Assisticant.Android/ListViewBindingExtensions.cs:126 | One `EnsureInCollection(i)` extends the placed prefix by one position. |
| CollectionViewBinding.UnbindEach | iOS/CollectionViewBindingExtensions.cs:139-142 | Unbinds each container's manager once, keeping every list. |
| CollectionViewBinding.NewBeforeGrow | iOS/CollectionViewBindingExtensions.cs:41-44 | A new container counts before every later position, so new cells are numbered in list order. |
| CollectionViewBinding.NewBindsCount | iOS/CollectionViewBindingExtensions.cs:41-45 | The `bind` calls of a refresh number exactly the containers placed for the first time. |
| CollectionViewBinding.NewBindsAt | iOS/CollectionViewBindingExtensions.cs:41-45 | The n-th `bind` call of a refresh is for the n-th new container, with its item and its new manager, so the calls follow list order. |
| CollectionViewBinding.NewBindsPrefix | iOS/CollectionViewBindingExtensions.cs:103-108 | The `bind` calls made for the first positions depend only on the managers at those positions, so later placements do not change them. |
| CollectionViewBinding.Targets | iOS/CollectionViewBindingExtensions.cs:103-108 | After a refresh a reused position shows its kept cell, and the n-th new position shows the n-th new cell. |
| CollectionViewBinding.TargetsDistinct | iOS/CollectionViewBindingExtensions.cs:103-108 | When the kept cells differ and are older than the new ones, every position gets a cell of its own. |
| CollectionViewBinding.ItemContainer.constructor | iOS/CollectionViewBindingExtensions.cs:18-22 | A new container holds its item and binding, has no manager yet and no cell. |
| CollectionViewBinding.ItemContainer.Equals | iOS/CollectionViewBindingExtensions.cs:61-69 | A container equals the same container or any container of an equal item, and never equals null. |
| CollectionViewBinding.ItemContainer.EqualsHash | iOS/CollectionViewBindingExtensions.cs:61-74 | Containers that `Equals` calls equal have the same `GetHashCode`, and equality is symmetric between them. |
| CollectionViewBinding.ItemContainer.EnsureInCollection | iOS/CollectionViewBindingExtensions.cs:39-50 | A never-placed container first gets a fresh manager, so `bind` sees it, then a new cell inserted at the index, which it keeps. A placed one whose cell is at the index changes nothing. Otherwise its cell is moved to the index. |
| CollectionViewBinding.ItemContainer.Dispose | iOS/CollectionViewBindingExtensions.cs:52-59 | Nothing for a never-placed container; otherwise its manager is unbound and its own cell is deleted. |
| CollectionViewBinding.CollectionBinding.ContainersDistinct | iOS/CollectionViewBindingExtensions.cs:61-69 | Between refreshes no container appears twice, although `Equals` may match different containers. |
| CollectionViewBinding.CollectionBinding.constructor | iOS/CollectionViewBindingExtensions.cs:83-89 | A new binding shows no cells and holds no containers. |
| CollectionViewBinding.CollectionBinding.GetCell | iOS/CollectionViewBindingExtensions.cs:111-114 | Returns the cell of the container at the index, and null past the end. Every item's cell counts as shown (see Left out). |
| CollectionViewBinding.CollectionBinding.Insert | iOS/CollectionViewBindingExtensions.cs:116-121 | Calls `bind` once with the container's item and manager. It then inserts a cell with a new number at the index. |
| CollectionViewBinding.CollectionBinding.Move | iOS/CollectionViewBindingExtensions.cs:123-126 | Moves the container's own cell from where it is to the index. |
| CollectionViewBinding.CollectionBinding.Remove | iOS/CollectionViewBindingExtensions.cs:128-131 | Deletes the container's own cell. |
| CollectionViewBinding.CollectionBinding.Unsubscribe | iOS/CollectionViewBindingExtensions.cs:137-143 | Unbinds every container's manager once, in list order. |
| CollectionViewBinding.CollectionBinding.Recycle | iOS/CollectionViewBindingExtensions.cs:93-100 | The new containers are those of `Reconcile`'s plan: the picked old container for a reused item, otherwise a distinct new unplaced one. |
| CollectionViewBinding.CollectionBinding.Gather | iOS/CollectionViewBindingExtensions.cs:95-100 | For given choices, position `i` holds the picked old container or a new distinct probe with item `i`. |
| CollectionViewBinding.CollectionBinding.UpdateItems | iOS/CollectionViewBindingExtensions.cs:91-109 | The view again shows one cell per container in the new item order. Reused containers keep their manager and cell. The n-th new container gets the n-th new cell and a fresh empty manager. `bind` is called once per new container, in list order, with its item and new manager, and never for a reused one. Exactly the old managers left in the bin are unbound. A container left in the bin leaves the list and keeps its manager and cell. |
| CollectionViewBinding.CollectionBinding.Arrange | iOS/CollectionViewBindingExtensions.cs:93-108 | Disposing the leftovers and placing the new containers gives the same outcome as `UpdateItems` for the bin's plan, including the `bind` calls: one per new container, in list order. An old container that is not in the new list keeps its manager and cell. |
| CollectionViewBinding.CollectionBinding.Settle | iOS/CollectionViewBindingExtensions.cs:97-108 | From the state the bin's `Extract` calls leave, disposing the leftovers and running the placement loop gives `UpdateItems`' outcome. Old containers not in the new list keep their manager and cell. |
| CollectionViewBinding.CollectionBinding.DroppedAfterRecycle | iOS/CollectionViewBindingExtensions.cs:93-100 | A container the bin still holds after the refill is at no position of the new list. |
| CollectionViewBinding.CollectionBinding.DisposeRest | iOS/CollectionViewBindingExtensions.cs:93-101 | Disposing what the bin holds deletes exactly those containers' cells and unbinds exactly their managers. |
| CollectionViewBinding.CollectionBinding.DisposeOne | iOS/CollectionViewBindingExtensions.cs:52-59 | One disposal unbinds that manager and deletes exactly that container's cell. |
| CollectionViewBinding.CollectionBinding.Place | iOS/CollectionViewBindingExtensions.cs:103-108 | After the loop the cells are exactly the target cells of the new list; reused containers keep their manager and cell, new ones get fresh managers and new cells in order. The loop adds one `bind` call per new container, in list order, and none for a reused one. |
| CollectionViewBinding.CollectionBinding.PlaceOne | iOS/CollectionViewBindingExtensions.cs:106 | One `EnsureInCollection(i)` extends the placed prefix by one position. |
| TableViewBinding.Stored | Portable/Binding/BindingManager.cs:21-46 | The pair appended by each `Bind` overload holds an output exactly when the overload takes one, and an input likewise. |
| TableViewBinding.StoredAll | Portable/Binding/BindingManager.cs:21-46 | A sequence of `Bind` calls appends one pair per call, in order. |
| TableViewBinding.SubscribesStored | Portable/Binding/BindingManager.cs:21-46 | A `Bind` call subscribes exactly what it stores, and unsubscribes nothing. |
| TableViewBinding.SubscribeCallsCover | iOS/TableViewBindingExtensions.cs:72-75 | The `bind` delegate subscribes `s` if and only if it stores a pair holding `s`. |
| TableViewBinding.RebindUnsubscribes | iOS/TableViewBindingExtensions.cs:62-75 | Anything `bind` subscribed for a row is unsubscribed by that row's next `Unbind`, in the next `GetCell` or `CellDisplayingEnded`. |
| TableViewBinding.Apply | Portable/Binding/BindingManager.cs:21-46 | One `Bind` call appends its pair and its subscribe calls last. |
| TableViewBinding.RunBind | iOS/TableViewBindingExtensions.cs:73 | Running the delegate's `Bind` calls appends their pairs and their subscribe calls, in order. |
| TableViewBinding.UnbindEach | iOS/TableViewBindingExtensions.cs:92-95 | Unbinds each distinct manager once, keeping its list. |
| TableViewBinding.Cell.constructor | iOS/TableViewBindingExtensions.cs:70 | A new cell carries the reuse identifier it is given. |
| TableViewBinding.ItemContainer.constructor | iOS/TableViewBindingExtensions.cs:14-19 | A new container holds its item and a fresh, empty manager. |
| TableViewBinding.NewContainers | iOS/TableViewBindingExtensions.cs:51-52 | Makes one fresh container per item, in order, each with its own fresh, empty manager. |
| TableViewBinding.CollectionBinding.constructor | iOS/TableViewBindingExtensions.cs:38-44 | A new binding holds no containers, has not reloaded and has bound nothing. |
| TableViewBinding.CollectionBinding.UpdateItems | iOS/TableViewBindingExtensions.cs:46-55 | Unbinds every old manager once. Then it holds fresh containers, with fresh, empty managers, for exactly the new items, and reloads the table once. |
| TableViewBinding.CollectionBinding.RowsInSection | iOS/TableViewBindingExtensions.cs:57-60 | One row per container, whatever the section. |
| TableViewBinding.CollectionBinding.GetCell | iOS/TableViewBindingExtensions.cs:62-78 | Unbinds the row's manager, then takes the dequeued cell, or else a new `"TableCell"` cell. It calls `bind` once with the cell, item and manager; the manager gains exactly what `bind` asked for. |
| TableViewBinding.CollectionBinding.CellDisplayingEnded | iOS/TableViewBindingExtensions.cs:80-84 | Unbinds the row's manager, keeping its list. |
| TableViewBinding.CollectionBinding.Unsubscribe | iOS/TableViewBindingExtensions.cs:90-96 | Unbinds every container's manager once. |
| TextBinding.IdentityOutput | Assisticant.Android/TextBindingExtensions.cs:55-58 | The identity converter shows the data unchanged. |
| TextBinding.IdentityInput | Assisticant.Android/TextBindingExtensions.cs:60-63 | The identity converter reads the text unchanged. |
| TextBinding.IdentityRoundTrip | Assisticant.Android/TextBindingExtensions.cs:51-64 | Both directions of `Identity` invert each other. |
| TextBinding.Digits | Assisticant.Android/TextBindingExtensions.cs:72 | `ToString` of a natural number is a non-empty run of decimal digits with no leading zero. |
| TextBinding.Decimal | Assisticant.Android/TextBindingExtensions.cs:72 | `ToString` of an integer is non-empty, starts with no white space and ends in a digit. |
| TextBinding.TrimStart | Assisticant.Android/TextBindingExtensions.cs:78 | The text `TryParse` reads after leading white space does not start with white space. |
| TextBinding.TrimEnd | Assisticant.Android/TextBindingExtensions.cs:78 | The text `TryParse` reads before trailing white space does not end with white space. |
| TextBinding.TryParse | Assisticant.Android/TextBindingExtensions.cs:78 | Succeeds exactly when the trimmed text is an optionally signed run of digits whose value is a 32-bit integer, and then yields that value. |
| TextBinding.IntOutput | Assisticant.Android/TextBindingExtensions.cs:70-73 | `ConvertOutput` writes the decimal form of the integer. |
| TextBinding.IntInput | Assisticant.Android/TextBindingExtensions.cs:75-82 | `ConvertInput` yields the parsed value when `TryParse` succeeds, and `0` otherwise. |
| TextBinding.ValueDigits | Assisticant.Android/TextBindingExtensions.cs:72 | Reading back the digits of a natural number gives the number. |
| TextBinding.SignedDecimal | Assisticant.Android/TextBindingExtensions.cs:72 | The sign-and-digits reading of the decimal form of any integer is that integer. |
| TextBinding.TrimStartWhite | Assisticant.Android/TextBindingExtensions.cs:78 | Leading white space in front of text that starts with no white space is trimmed away exactly. |
| TextBinding.TrimEndWhite | Assisticant.Android/TextBindingExtensions.cs:78 | Trailing white space after text that ends with no white space is trimmed away exactly. |
| TextBinding.TryParseDecimal | Assisticant.Android/TextBindingExtensions.cs:78 | The decimal form of any integer, with any white space around it, parses to that integer when it is in 32-bit range, and fails otherwise. |
| TextBinding.TryParseBare | Assisticant.Android/TextBindingExtensions.cs:78 | The decimal form of an integer parses to it when it is in range, and fails otherwise. |
| TextBinding.ConvertIntRoundTrip | Assisticant.Android/TextBindingExtensions.cs:66-83 | `ConvertInput(ConvertOutput(n)) == n` for every 32-bit `n`. |
| TextBinding.ConvertIntPadded | Assisticant.Android/TextBindingExtensions.cs:75-82 | White space around a written number does not change what is read back. |
| TextBinding.OutOfRangeIsZero | Assisticant.Android/TextBindingExtensions.cs:77-81 | A well-formed number outside 32-bit range reads as `0`. |
| TextBinding.NoDigitIsZero | Assisticant.Android/TextBindingExtensions.cs:77-81 | Text with no digit in it reads as `0`. |
| TextBinding.LeadingZerosRead | Assisticant.Android/TextBindingExtensions.cs:75-79 | Leading zeros in front of a written natural number do not change what is read. |
| TextBinding.PlusSignRead | Assisticant.Android/TextBindingExtensions.cs:75-79 | A `+` in front of a written natural number does not change what is read. |
| TextBinding.TextNotKept | Assisticant.Android/TextBindingExtensions.cs:70-82 | Typed text with leading zeros is not written back as typed: writing what was read gives different text. |
| TextBinding.TextView.constructor | Assisticant.Android/TextBindingExtensions.cs:15 | A control with the given text and focus. |
| TextBinding.UpdateTextView | Assisticant.Android/TextBindingExtensions.cs:163-167 | A control with focus keeps its text; otherwise it shows `ConvertOutput(data)`. |
| TextBinding.Repeat | Assisticant.Android/TextBindingExtensions.cs:42 | Once per attached handler, the same converted value. |
| TextBinding.TextBinding.constructor | Assisticant.Android/TextBindingExtensions.cs:20-26 | A new text binding keeps its control and converter and has no handler attached. |
| TextBinding.TextBinding.Subscribe | Assisticant.Android/TextBindingExtensions.cs:28-32 | Attaches its handlers once more. |
| TextBinding.TextBinding.Unsubscribe | Assisticant.Android/TextBindingExtensions.cs:34-38 | Detaches one attachment of its handlers if any is attached, and otherwise does nothing. |
| TextBinding.TextBinding.TextChanged | Assisticant.Android/TextBindingExtensions.cs:40-43 | Every attached text handler hands `ConvertInput` of the current text to `input`. |
| TextBinding.TextBinding.FocusChanged | Assisticant.Android/TextBindingExtensions.cs:45-48 | When handlers are attached, a focus change, gained or lost alike, overwrites the text with `ConvertOutput` of the current output; otherwise the text stays. |

## Left out

- The runtime objects `Computed<T>`, `ComputedSubscription` and `IInputSubscription` are not part of this model. They are opaque identities; the model records only the `Subscribe` and `Unsubscribe` calls made on them. A `Bind(function, action)` takes the output subscription's identity as a parameter.
- The dependency tracker behind `OnGet`/`OnSet` is not part of this model; those calls are recorded in a trace.
- The `UpdateScheduler` batch around the `bind` delegate is not modelled, in the table view's `GetCell` and in the Android adapter's `GetView` (Assisticant.Android/ListViewBindingExtensions.cs:103-106). It only marshals updates.
- Threading and the UI thread are not modelled.
- C# `null` is `None` of an `Option`, `Equals` on items is Dafny value equality, and `GetHashCode` takes the item type's hash function as a parameter.
- `RecycleBin<T>` is not part of this model. Its behaviour is fixed from its call sites:
  - the bin is filled in list order;
  - `Extract` returns the first remaining equal container;
  - the leftovers are disposed in the order they remain.
- The `BindItems` and `BindText` extension methods are not modelled, because they only wire a binding object to a `BindingManager` (`BindingManager.Bind`, which is modelled).
- The converter interface `IValueConverter` is the `Converter` datatype.
- Android view inflation (`LayoutInflater`) is not modelled: `GetView` takes the newly inflated row as a parameter.
- In the iOS collection view, `CellForItem` and inserting the cell into the view are modelled as a new numbered cell. The `bind` delegate of the two list reconcilers is logged as one call with the item and manager; what it subscribes is not modelled. For the table view it is modelled, as a sequence of `Bind` requests.
- `UITableView.ReloadData` and the cell dequeue are modelled as a counter and a parameter; the table view's own cell recycling is not modelled.
- `GetCell` of the table view takes a row inside the list as a requires. An index past the end throws in the source, and the table view asks only for rows it shows.
- `CellDisplayingEnded` of the table view also takes a row inside the list as a requires. After `ReloadData` has shortened the list, UIKit may still report a row of the old list, and `_itemContainers[indexPath.Row]` then throws (iOS/TableViewBindingExtensions.cs:82). That case is not modelled.
- In the iOS collection view, every item's cell counts as visible. `CellForItem` returns null in UIKit for a cell off the screen, and `IndexPathForCell` returns null for such a cell. The model's `GetCell` returns the container's cell for every index inside the list, and `MoveItem` always has a source index path. Off-screen cells, and the moves with a null index path that the source would then make, are not modelled.
- The `Subscribe` methods of the Android list adapter and of the iOS bindings are empty in the source. The table view one is modelled as empty; the other two are left out.
- The Android `TextView` firing `TextChanged` when `UpdateTextView` or the focus handler sets its text is not modelled: events are separate operations.
- TextBinding.TryParse models .NET `int.TryParse` for the invariant culture only (a `-` or `+` sign, ASCII digits, white space from `\t` to `\r` and the space). Other cultures' signs, other Unicode digits and white space, and the trailing NUL characters .NET tolerates are not modelled.
- TextBinding.IntOutput and TextBinding.Decimal, which model `ConvertOutput` of the integer converter, write numbers for the invariant culture only (`-` and ASCII digits). The source's `data.ToString()` uses the current culture (Assisticant.Android/TextBindingExtensions.cs:72), whose negative sign may differ.
- ListViewBinding.BindingArrayAdapter.UpdateItems: requires the new items to be pairwise different. `ArrayAdapter.Remove` matches by `Equals`, that is by item, so with equal items it may remove a different container; the model does not cover that case. The Findings section shows a refresh from `[a, b, a]` to `[a, a, b]` that loses a container.
- The iOS collection view source does not compile as written: `UpdateItems` is declared to return `object` but returns nothing (`iOS/CollectionViewBindingExtensions.cs:91`), and `BindItems` calls a one-argument constructor that does not exist (`:160`). The model takes `UpdateItems` as returning nothing, and leaves `BindItems` out.
- The iOS `TableBindingExtensions`, the iOS button, stepper and text bindings, and the `BindingManagerExtensions`/`BindingSubscriptionsExtensions` helpers are not part of this model.
- The Android `ListViewExtensions` file is not part of this model.
- Both refresh models assign `containers` later than the source does. The source clears and refills `_itemContainers` inside the bin's `using` block, before the bin's `Dispose` (iOS/CollectionViewBindingExtensions.cs:95-99, Assisticant.Android/ListViewBindingExtensions.cs:115-119). The iOS model assigns the new list after the bin has disposed the leftover containers and before the placement loop; the Android model assigns it after the placement loop. Neither the disposal nor the placement loop reads the list, so the difference is not observable from outside `UpdateItems`.

## Findings

| source | as written | input that shows it | evidently intended | confidence | as-written member | corrected member |
|---|---|---|---|---|---|---|
| Assisticant.Android/ListViewBindingExtensions.cs:46-49, :61-68 | `EnsureInCollection` moves a container with `_adapter.Remove(this)`, and `ItemContainer.Equals` compares items, so `Remove` takes the first container holding an equal item | items `[a, b, a]` shown by `c1, c2, c3`, refreshed to `[a, a, b]`: the bin reuses `c1, c3, c2`; moving `c3` removes `c1`, and the adapter ends as `[c3, c3, c2]`, with `c1` lost and `c3` listed twice, sharing one row view | the moved container itself is removed, and the adapter ends as `[c1, c3, c2]` | medium, not executed (relies on `ArrayAdapter.Remove` matching by `Equals`) | ListViewBinding.DuplicateItemsAsWritten | ListViewBinding.DuplicateItemsByReference |

The placement loop of the model removes by item as the source does (`ListViewBinding.BindingArrayAdapter.UpdateItems` requires pairwise different new items). Under that requires, removal by item and removal of the container itself coincide (`ListViewBinding.RemoveFirstEqualUnique`), so the loop the model proves is also the corrected one. The iOS collection view moves a cell by its own index path, which is removal by reference (`Sequences.PlaceMove`).
