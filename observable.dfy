/**
 * `Observable<T>`: a value cell that reports reads to the dependency tracker
 * (`OnGet`) and reports changes (`OnSet`) only when the new value differs
 * from the stored one. The base class's `OnGet`/`OnSet` belong to the
 * runtime; the model records each call in a trace.
 */
module Fields {
  import opened Wrappers

  /** A call into the base `Observable`. `OnSet` records the value the cell
      held at the moment of the call, so a trace shows whether it preceded the store. */
  datatype Access<T> = OnGet | OnSet(held: Option<T>)

  /** The stored value (`None` is `null`) together with the calls made so far. */
  datatype CellState<T> = CellState(value: Option<T>, trace: seq<Access<T>>)

  /** The setter's guard: `_value == null ? value != null : !_value.Equals(value)`,
      with `Equals` taken as value equality and `x.Equals(null)` false. It fires
      exactly when the new value is not the stored one; two nulls are equal. */
  predicate Differs<T(==)>(current: Option<T>, v: Option<T>)
    ensures Differs(current, v) <==> current != v
  {
    if current.None? then v.Some? else !(v.Some? && current.value == v.value)
  }

  /** The effect of one assignment to `Value`. */
  function SetStep<T(==)>(s: CellState<T>, v: Option<T>): CellState<T>
  {
    if Differs(s.value, v) then CellState(v, s.trace + [OnSet(s.value)]) else s
  }

  /** The effect of a sequence of assignments, in order. */
  function SetAll<T(==)>(s: CellState<T>, vs: seq<Option<T>>): CellState<T>
  {
    if vs == [] then s else SetStep(SetAll(s, vs[..|vs| - 1]), vs[|vs| - 1])
  }

  /** The number of `OnSet` calls in a trace. */
  function SetCount<T>(trace: seq<Access<T>>): nat
  {
    if trace == [] then 0
    else SetCount(trace[..|trace| - 1]) + (if trace[|trace| - 1].OnSet? then 1 else 0)
  }

  /** Assigning the stored value (or null over null) changes nothing and calls no `OnSet`. */
  lemma SetUnchanged<T>(s: CellState<T>, v: Option<T>)
    requires s.value == v
    ensures SetStep(s, v) == s
  {
  }

  /** Assigning a different value calls `OnSet` exactly once, while the old value
      is still stored, and then stores the new value. */
  lemma SetChanged<T>(s: CellState<T>, v: Option<T>)
    requires s.value != v
    ensures SetStep(s, v).value == v
    ensures SetStep(s, v).trace == s.trace + [OnSet(s.value)]
    ensures SetCount(SetStep(s, v).trace) == SetCount(s.trace) + 1
  {
    var t := SetStep(s, v).trace;
    assert t[..|t| - 1] == s.trace;
  }

  /** Assigning the same value twice in a row has the effect of assigning it once. */
  lemma SetIdempotent<T>(s: CellState<T>, v: Option<T>)
    ensures SetStep(SetStep(s, v), v) == SetStep(s, v)
  {
  }

  /** Any run of assignments of the value already stored leaves the cell as it was,
      so it never invalidates a dependent. */
  lemma {:induction false} SetAllUnchanged<T>(s: CellState<T>, vs: seq<Option<T>>)
    requires forall k :: 0 <= k < |vs| ==> vs[k] == s.value
    ensures SetAll(s, vs) == s
  {
    if vs != [] {
      SetAllUnchanged(s, vs[..|vs| - 1]);
    }
  }

  /** After a non-empty run of assignments the last one is stored, and at most one
      `OnSet` was called per assignment. */
  lemma {:induction false} SetAllLastWins<T>(s: CellState<T>, vs: seq<Option<T>>)
    ensures vs != [] ==> SetAll(s, vs).value == vs[|vs| - 1]
    ensures SetCount(s.trace) <= SetCount(SetAll(s, vs).trace) <= SetCount(s.trace) + |vs|
  {
    if vs != [] {
      var init := vs[..|vs| - 1];
      SetAllLastWins(s, init);
      var m := SetAll(s, init);
      if m.value != vs[|vs| - 1] {
        SetChanged(m, vs[|vs| - 1]);
      }
    }
  }

  class Observable<T(==)> {
    /** `_value`; `None` is `null`. */
    var value: Option<T>
    /** The calls made into the base `Observable` so far. */
    ghost var trace: seq<Access<T>>

    ghost function State(): CellState<T>
      reads this
    {
      CellState(value, trace)
    }

    /** `Observable()`: `_value` keeps the field's initial value `default(T)`,
        which the caller supplies as `dflt` (`None` for a reference type, the
        zero of a value type otherwise), and nothing is reported. */
    constructor (dflt: Option<T>)
      ensures value == dflt && trace == []
    {
      value := dflt;
      trace := [];
    }

    /** `Observable(value)`: the value is the one given, and nothing is reported. */
    constructor WithValue(v: Option<T>)
      ensures value == v && trace == []
    {
      value := v;
      trace := [];
    }

    /** The `Value` getter: one `OnGet`, then the stored value. */
    method Get() returns (v: Option<T>)
      modifies this`trace
      ensures v == value && value == old(value)
      ensures trace == old(trace) + [OnGet]
    {
      trace := trace + [OnGet];
      v := value;
    }

    /** The `Value` setter. */
    method Set(v: Option<T>)
      modifies this
      ensures State() == SetStep(old(State()), v)
      ensures old(value) == v ==> value == old(value) && trace == old(trace)
      ensures old(value) != v ==> value == v && trace == old(trace) + [OnSet(old(value))]
    {
      if Differs(value, v) {
        trace := trace + [OnSet(value)];
        value := v;
      }
    }

    /** The implicit conversion to `T`: the same as reading `Value`. */
    static method Convert(o: Observable<T>) returns (v: Option<T>)
      modifies o`trace
      ensures v == o.value && o.value == old(o.value)
      ensures o.trace == old(o.trace) + [OnGet]
    {
      v := o.Get();
    }
  }
}
