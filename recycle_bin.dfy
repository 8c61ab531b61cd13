/**
 * The reconciliation pass shared by the Android and iOS list bindings:
 * a `RecycleBin` is filled with the old item containers, every new item
 * asks the bin for an old container with an equal item, and whatever the
 * bin still holds afterwards is disposed.
 *
 * `RecycleBin<T>` itself is not modelled; its behaviour is fixed from its
 * call sites: the bin is built from the old containers in list order; `Extract` takes out the first remaining container
 * whose item equals the requested one, or reports that none remains; the
 * containers left in the bin are disposed in the order they remain. Positions in
 * the old list stand for the containers themselves.
 */
module RecycleBins {
  import opened Wrappers
  import opened Sequences
  import opened BindingManagers

  /** The position in `bin` of the first old container whose item is `x`. */
  function FindIn<T(==)>(olds: seq<T>, bin: seq<nat>, x: T): (r: Option<nat>)
    ensures r.Some? ==> r.value < |bin| && bin[r.value] < |olds| && olds[bin[r.value]] == x
    ensures r.Some? ==> forall k :: 0 <= k < r.value ==> !(bin[k] < |olds| && olds[bin[k]] == x)
    ensures r.None? ==> forall k :: 0 <= k < |bin| ==> !(bin[k] < |olds| && olds[bin[k]] == x)
  {
    if bin == [] then None
    else if bin[0] < |olds| && olds[bin[0]] == x then Some(0)
    else match FindIn(olds, bin[1..], x)
      case None => None
      case Some(k) => Some(k + 1)
  }

  /** What `Extract` hands back (`None`: the probe itself) and the bin it leaves. */
  datatype Extracted = Extracted(pick: Option<nat>, bin: seq<nat>)

  /** `RecycleBin.Extract`: take out an old container with item `x` if one is left. */
  function Extract<T(==)>(olds: seq<T>, bin: seq<nat>, x: T): (r: Extracted)
    ensures r.pick.Some? ==> exists k :: 0 <= k < |bin| && bin[k] == r.pick.value && r.bin == RemoveAt(bin, k)
    ensures r.pick.Some? ==> r.pick.value < |olds| && olds[r.pick.value] == x
    ensures r.pick.None? ==> r.bin == bin
    ensures r.pick.None? ==> forall k :: 0 <= k < |bin| && bin[k] < |olds| ==> olds[bin[k]] != x
  {
    match FindIn(olds, bin, x)
    case None => Extracted(None, bin)
    case Some(k) => Extracted(Some(bin[k]), RemoveAt(bin, k))
  }

  /** For each new item the old container reused for it (`None`: a new one),
      and the old containers left in the bin. */
  datatype Plan = Plan(picks: seq<Option<nat>>, rest: seq<nat>)

  /** The reconciliation loop run over `items` against the bin `bin`. */
  function ReconcileFrom<T(==)>(olds: seq<T>, bin: seq<nat>, items: seq<T>): (r: Plan)
    ensures |r.picks| == |items|
  {
    if items == [] then Plan([], bin)
    else
      var p := ReconcileFrom(olds, bin, items[..|items| - 1]);
      var e := Extract(olds, p.rest, items[|items| - 1]);
      Plan(p.picks + [e.pick], e.bin)
  }

  /** The positions `0 .. n-1`: a bin holding every old container. */
  function Iota(n: nat): (r: seq<nat>)
    ensures |r| == n && forall k :: 0 <= k < n ==> r[k] == k
  {
    if n == 0 then [] else Iota(n - 1) + [n - 1]
  }

  /** `UpdateItems`' first pass: a bin built from all old containers, then one
      `Extract` per new item. */
  function Reconcile<T(==)>(olds: seq<T>, items: seq<T>): (r: Plan)
    ensures |r.picks| == |items|
  {
    ReconcileFrom(olds, Iota(|olds|), items)
  }

  /** Every reuse pairs a new item with an old container of an equal item from `bin0`. */
  ghost predicate PicksMatch<T>(olds: seq<T>, bin0: seq<nat>, items: seq<T>, p: Plan)
  {
    && |p.picks| == |items|
    && forall i :: 0 <= i < |items| && p.picks[i].Some? ==>
         p.picks[i].value in bin0 && p.picks[i].value < |olds| && olds[p.picks[i].value] == items[i]
  }

  /** No old container is reused twice. */
  ghost predicate PicksInjective(p: Plan)
  {
    forall i, i' :: 0 <= i < i' < |p.picks| && p.picks[i].Some? ==> p.picks[i] != p.picks[i']
  }

  /** What is left in the bin is a part of `bin0` with no repetition. */
  ghost predicate RestInBin(bin0: seq<nat>, p: Plan)
  {
    && Distinct(p.rest)
    && forall k :: 0 <= k < |p.rest| ==> p.rest[k] in bin0
  }

  /** A container of `bin0` is left in the bin exactly when it was not reused. */
  ghost predicate RestExact(bin0: seq<nat>, p: Plan)
  {
    forall j :: j in bin0 ==> (j in p.rest <==> Some(j) !in p.picks)
  }

  /** Nothing is left in the bin that some new item could have reused. */
  ghost predicate RestUnmatched<T>(olds: seq<T>, items: seq<T>, p: Plan)
  {
    forall j, i :: j in p.rest && 0 <= i < |items| && i < |p.picks| && j < |olds| && olds[j] == items[i] ==> p.picks[i].Some?
  }

  /** What every prefix of the loop keeps true, for a starting bin `bin0`. */
  ghost predicate PlanInvariant<T>(olds: seq<T>, bin0: seq<nat>, items: seq<T>, p: Plan)
  {
    PicksMatch(olds, bin0, items, p) && PicksInjective(p) && RestInBin(bin0, p)
    && RestExact(bin0, p) && RestUnmatched(olds, items, p)
  }

  /** An `Extract` that finds nothing keeps the invariant. */
  lemma ReconcileStepNone<T>(olds: seq<T>, bin0: seq<nat>, init: seq<T>, x: T, p: Plan)
    requires PlanInvariant(olds, bin0, init, p)
    requires Extract(olds, p.rest, x).pick.None?
    ensures PlanInvariant(olds, bin0, init + [x], Plan(p.picks + [None], p.rest))
  {
    var items := init + [x];
    var q := Plan(p.picks + [None], p.rest);
    var n := |init|;
    assert forall i :: 0 <= i < n ==> q.picks[i] == p.picks[i] && items[i] == init[i];
    assert PicksMatch(olds, bin0, items, q);
    assert PicksInjective(q);
    forall j | j in bin0
      ensures j in q.rest <==> Some(j) !in q.picks
    {
      assert Some(j) in q.picks <==> Some(j) in p.picks;
    }
    forall j | j in p.rest && j < |olds|
      ensures olds[j] != x
    {
      var k :| 0 <= k < |p.rest| && p.rest[k] == j;
    }
    assert RestUnmatched(olds, items, q);
  }

  /** An `Extract` that takes out the container at position `k` of the bin keeps the invariant. */
  lemma ReconcileStepSome<T>(olds: seq<T>, bin0: seq<nat>, init: seq<T>, x: T, p: Plan, k: nat)
    requires PlanInvariant(olds, bin0, init, p)
    requires k < |p.rest| && p.rest[k] < |olds| && olds[p.rest[k]] == x
    ensures PlanInvariant(olds, bin0, init + [x], Plan(p.picks + [Some(p.rest[k])], RemoveAt(p.rest, k)))
  {
    var v := p.rest[k];
    var items := init + [x];
    var q := Plan(p.picks + [Some(v)], RemoveAt(p.rest, k));
    var n := |init|;
    assert forall i :: 0 <= i < n ==> q.picks[i] == p.picks[i] && items[i] == init[i];
    assert v in bin0;
    assert PicksMatch(olds, bin0, items, q);
    assert Some(v) !in p.picks;
    forall i, i' | 0 <= i < i' < |q.picks| && q.picks[i].Some?
      ensures q.picks[i] != q.picks[i']
    {
      if i' == n {
        assert q.picks[i] in p.picks;
      }
    }
    forall y
      ensures y in q.rest <==> y in p.rest && y != v
    {
      RemoveAtMembers(p.rest, k, y);
    }
    RemoveAtMembers(p.rest, k, v);
    forall k' | 0 <= k' < |q.rest|
      ensures q.rest[k'] in bin0
    {
      assert q.rest[k'] in p.rest;
    }
    forall j | j in bin0
      ensures j in q.rest <==> Some(j) !in q.picks
    {
      assert Some(j) in q.picks <==> Some(j) in p.picks || j == v;
    }
  }

  lemma {:induction false} ReconcileFromInvariant<T>(olds: seq<T>, bin0: seq<nat>, items: seq<T>)
    requires Distinct(bin0)
    ensures PlanInvariant(olds, bin0, items, ReconcileFrom(olds, bin0, items))
  {
    if items != [] {
      var init := items[..|items| - 1];
      ReconcileFromInvariant(olds, bin0, init);
      var p := ReconcileFrom(olds, bin0, init);
      var x := items[|items| - 1];
      var e := Extract(olds, p.rest, x);
      assert init + [x] == items;
      assert ReconcileFrom(olds, bin0, items) == Plan(p.picks + [e.pick], e.bin);
      if e.pick.None? {
        ReconcileStepNone(olds, bin0, init, x, p);
      } else {
        var k :| 0 <= k < |p.rest| && p.rest[k] == e.pick.value && e.bin == RemoveAt(p.rest, k);
        ReconcileStepSome(olds, bin0, init, x, p, k);
      }
    }
  }

  /** The reconciliation pass, stated over the old items `olds` and the new `items`:
      one choice per new item; a reused container has an equal item; no old
      container is reused twice; a container stays in the bin exactly when it
      was not reused; and none is left in the bin while an equal new item got
      a new container. */
  lemma ReconcileSpec<T>(olds: seq<T>, items: seq<T>)
    ensures var p := Reconcile(olds, items);
      && |p.picks| == |items|
      && (forall i :: 0 <= i < |items| && p.picks[i].Some? ==>
            p.picks[i].value < |olds| && olds[p.picks[i].value] == items[i])
      && (forall i, i' :: 0 <= i < i' < |items| && p.picks[i].Some? ==> p.picks[i] != p.picks[i'])
      && Distinct(p.rest)
      && (forall k :: 0 <= k < |p.rest| ==> p.rest[k] < |olds|)
      && (forall j :: 0 <= j < |olds| ==> (j in p.rest <==> Some(j) !in p.picks))
      && (forall j, i :: j in p.rest && 0 <= i < |items| && olds[j] == items[i] ==> p.picks[i].Some?)
  {
    var bin0 := Iota(|olds|);
    assert Distinct(bin0);
    ReconcileFromInvariant(olds, bin0, items);
    var p := Reconcile(olds, items);
    forall j | 0 <= j < |olds|
      ensures j in bin0
    {
      assert bin0[j] == j;
    }
    forall k | 0 <= k < |p.rest|
      ensures p.rest[k] < |olds|
    {
      assert p.rest[k] in bin0;
    }
  }

  /** The part of `ReconcileSpec` about the reuses alone; a refresh that only
      needs these facts calls this lemma, so its proof does not carry the rest. */
  lemma ReconcileShape<T>(olds: seq<T>, items: seq<T>)
    ensures var p := Reconcile(olds, items);
      && |p.picks| == |items|
      && (forall i :: 0 <= i < |items| && p.picks[i].Some? ==>
            p.picks[i].value < |olds| && olds[p.picks[i].value] == items[i])
  {
    ReconcileSpec(olds, items);
  }

  /** The part of `ReconcileSpec` about what is left in the bin, for the
      disposal pass of a refresh, which needs nothing else. */
  lemma ReconcileRest<T>(olds: seq<T>, items: seq<T>)
    ensures var p := Reconcile(olds, items);
      && (forall i, i' :: 0 <= i < i' < |p.picks| && p.picks[i].Some? ==> p.picks[i] != p.picks[i'])
      && Distinct(p.rest)
      && (forall k :: 0 <= k < |p.rest| ==> p.rest[k] < |olds|)
      && (forall j :: 0 <= j < |olds| ==> (j in p.rest <==> Some(j) !in p.picks))
  {
    ReconcileSpec(olds, items);
  }

  /** The example of a refresh from `[a, b]` to `[b, c]`: `b` keeps its
      container although it moves up, `c` gets a new one, and `a` is left in the
      bin to be disposed. */
  lemma ReconcileExample()
    ensures Reconcile(['a', 'b'], ['b', 'c']) == Plan([Some(1), None], [0])
  {
    assert Iota(2) == [0, 1];
    ExampleFirst();
    ExampleSecond();
  }

  lemma ExampleFirst()
    ensures ReconcileFrom(['a', 'b'], [0, 1], ['b']) == Plan([Some(1)], [0])
  {
    var olds := ['a', 'b'];
    assert FindIn(olds, [0, 1], 'b') == Some(1) by {
      assert FindIn(olds, [1], 'b') == Some(0);
      assert [0, 1][1..] == [1];
    }
    assert RemoveAt([0, 1], 1) == [0];
    ReconcileFromStep(olds, [0, 1], [], 'b', [], [0, 1], Extracted(Some(1), [0]));
    assert [] + ['b'] == ['b'];
  }

  lemma ExampleSecond()
    requires ReconcileFrom(['a', 'b'], [0, 1], ['b']) == Plan([Some(1)], [0])
    ensures ReconcileFrom(['a', 'b'], [0, 1], ['b', 'c']) == Plan([Some(1), None], [0])
  {
    var olds := ['a', 'b'];
    assert FindIn(olds, [0], 'c') == None by {
      assert [0][1..] == [];
    }
    ReconcileFromStep(olds, [0, 1], ['b'], 'c', [Some(1)], [0], Extracted(None, [0]));
    assert ['b'] + ['c'] == ['b', 'c'];
  }

  /** `ReconcileFromSnoc` for a known plan of the earlier items and a known `Extract`. */
  lemma ReconcileFromStep<T>(olds: seq<T>, bin: seq<nat>, items: seq<T>, x: T,
                             picks: seq<Option<nat>>, rest: seq<nat>, e: Extracted)
    requires ReconcileFrom(olds, bin, items) == Plan(picks, rest)
    requires Extract(olds, rest, x) == e
    ensures ReconcileFrom(olds, bin, items + [x]) == Plan(picks + [e.pick], e.bin)
  {
    ReconcileFromSnoc(olds, bin, items, x);
  }

  /** One more item is one more `Extract` from the bin the earlier items left. */
  lemma ReconcileFromSnoc<T>(olds: seq<T>, bin: seq<nat>, items: seq<T>, x: T)
    ensures var p := ReconcileFrom(olds, bin, items);
      var e := Extract(olds, p.rest, x);
      ReconcileFrom(olds, bin, items + [x]) == Plan(p.picks + [e.pick], e.bin)
  {
    assert (items + [x])[..|items|] == items;
  }

  /** The old containers at the positions `done`. */
  ghost function Gone<E>(olds: seq<E>, done: set<nat>): set<E>
  {
    set k | k in done && k < |olds| :: olds[k]
  }

  /** Disposing one more position of a list with no repetition adds one
      container not disposed before. */
  lemma GoneStep<E>(olds: seq<E>, done: set<nat>, j: nat)
    requires Distinct(olds) && j < |olds| && j !in done
    ensures olds[j] !in Gone(olds, done)
    ensures Gone(olds, done + {j}) == Gone(olds, done) + {olds[j]}
  {
  }

  /** Once the containers left in the bin are gone from the old list, what
      remains are exactly the containers the plan reuses. */
  lemma KeptAreReused<E>(olds: seq<E>, cs: seq<E>, p: Plan, done: set<nat>, x: E)
    requires Distinct(olds) && |cs| == |p.picks| && forall k :: k in done <==> k in p.rest
    requires forall i :: 0 <= i < |cs| && p.picks[i].Some? ==>
      p.picks[i].value < |olds| && cs[i] == olds[p.picks[i].value]
    requires forall j :: 0 <= j < |olds| ==> (j in p.rest <==> Some(j) !in p.picks)
    ensures x in Without(olds, Gone(olds, done)) <==>
      exists i :: 0 <= i < |cs| && p.picks[i].Some? && cs[i] == x
  {
    var gone := Gone(olds, done);
    WithoutMembers(olds, gone, x);
    if x in olds && x !in gone {
      var j :| 0 <= j < |olds| && olds[j] == x;
      assert j !in done;
      assert Some(j) in p.picks;
      var i :| 0 <= i < |p.picks| && p.picks[i] == Some(j);
      assert cs[i] == x;
    }
    if exists i :: 0 <= i < |cs| && p.picks[i].Some? && cs[i] == x {
      var i :| 0 <= i < |cs| && p.picks[i].Some? && cs[i] == x;
      var j := p.picks[i].value;
      assert Some(j) in p.picks;
      assert j !in done;
      forall j' | j' in done && j' < |olds|
        ensures olds[j'] != x
      {
      }
    }
  }

  /** A container left in the bin is at no position of the new list: a reused
      position holds another old container, and the others hold new ones. */
  lemma LeftoversDropped<E>(olds: seq<E>, cs: seq<E>, p: Plan)
    requires Distinct(olds) && |cs| == |p.picks|
    requires forall i :: 0 <= i < |cs| && p.picks[i].Some? ==>
      p.picks[i].value < |olds| && cs[i] == olds[p.picks[i].value]
    requires forall i :: 0 <= i < |cs| && p.picks[i].None? ==> cs[i] !in olds
    requires forall j :: 0 <= j < |olds| ==> (j in p.rest <==> Some(j) !in p.picks)
    ensures forall j :: 0 <= j < |olds| && j in p.rest ==> olds[j] !in cs
  {
    forall j, i | 0 <= j < |olds| && j in p.rest && 0 <= i < |cs|
      ensures cs[i] != olds[j]
    {
      if p.picks[i].Some? {
        assert p.picks[i] in p.picks;
      }
    }
  }

  /** After the disposals the host holds exactly the reused old containers,
      in their old order: the starting point of the placement pass. */
  lemma ReadyToPlace<E>(olds: seq<E>, cs: seq<E>, p: Plan, done: set<nat>, reused: set<E>, host: seq<E>)
    requires Distinct(olds) && Distinct(cs) && |cs| == |p.picks|
    requires forall i :: 0 <= i < |cs| && p.picks[i].Some? ==>
      p.picks[i].value < |olds| && cs[i] == olds[p.picks[i].value]
    requires forall j :: 0 <= j < |olds| ==> (j in p.rest <==> Some(j) !in p.picks)
    requires forall k :: k in done <==> k in p.rest
    requires host == Without(olds, Gone(olds, done))
    requires reused == set i | 0 <= i < |cs| && p.picks[i].Some? :: cs[i]
    ensures Placed(cs, host, 0, reused)
  {
    WithoutDistinct(olds, Gone(olds, done));
    forall x
      ensures x in host <==> x in reused
    {
      KeptAreReused(olds, cs, p, done, x);
    }
    PlacedStart(cs, host, reused);
  }

  /** After a refresh no two containers share a manager: the reused ones keep
      their different old managers `ms`, and each new one is a manager not in
      `ms` that `owner` traces back to its own position. */
  lemma NewManagersDistinct(ms: seq<BindingManager>, picks: seq<Option<nat>>, bs: seq<BindingManager?>,
                            owner: map<BindingManager?, nat>)
    requires |bs| == |picks| && Distinct(ms)
    requires forall i, i' :: 0 <= i < i' < |picks| && picks[i].Some? ==> picks[i] != picks[i']
    requires forall k :: 0 <= k < |bs| && picks[k].Some? ==> picks[k].value < |ms| && bs[k] == ms[picks[k].value]
    requires forall k :: 0 <= k < |bs| && picks[k].None? ==>
      bs[k] != null && bs[k] !in ms && bs[k] in owner && owner[bs[k]] == k
    ensures forall k :: 0 <= k < |bs| ==> bs[k] != null
    ensures Distinct(bs)
  {
    forall a, b | 0 <= a < b < |bs|
      ensures bs[a] != bs[b]
    {
      if picks[a].Some? && picks[b].Some? {
        assert picks[a].value != picks[b].value;
      }
    }
  }
}
