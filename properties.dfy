/**
 What a call to `synchronize` guarantees, stated on `SyncSpec` and
 `Reconcile`, the functions the methods are proved against.
 */
module Properties {
  import opened Values
  import opened Query
  import opened RowIndex
  import opened Synchronization

  /** No record object appears twice in the collection. */
  ghost predicate Distinct(instances: seq<Record>)
  {
    forall i, i' :: 0 <= i < i' < |instances| ==> instances[i] != instances[i']
  }

  /** Every instance has a state, and in it every key field. */
  ghost predicate Keyed(states: map<Record, RecState>, instances: seq<Record>, keys: seq<Field>)
  {
    && Tracked(states, instances)
    && forall i, j :: 0 <= i < |instances| && 0 <= j < |keys| ==> keys[j] in states[instances[i]].attrs
  }

  /** The key tuple of the `i`-th instance. */
  function KeyOf(states: map<Record, RecState>, instances: seq<Record>, keys: seq<Field>, coerce: Coercion, i: int): (t: Tuple)
    requires Keyed(states, instances, keys) && 0 <= i < |instances|
  {
    InstanceKey(states[instances[i]].attrs, keys, coerce).value
  }

  /** No earlier instance has the key tuple of the `i`-th one. */
  ghost predicate FirstWithKey(states: map<Record, RecState>, instances: seq<Record>, keys: seq<Field>, coerce: Coercion, i: int)
    requires Keyed(states, instances, keys) && 0 <= i < |instances|
  {
    forall i' :: 0 <= i' < i ==> KeyOf(states, instances, keys, coerce, i') != KeyOf(states, instances, keys, coerce, i)
  }

  /** The key tuples of all instances. */
  ghost function AllKeys(states: map<Record, RecState>, instances: seq<Record>, keys: seq<Field>, coerce: Coercion): (tuples: set<Tuple>)
    requires Keyed(states, instances, keys)
  {
    set i | 0 <= i < |instances| :: KeyOf(states, instances, keys, coerce, i)
  }

  /**
   What the walk leaves the `i`-th of distinct records as: refreshed from the
   index entry for its key tuple when there is one and no earlier instance has
   the same tuple, unchanged otherwise.
   */
  ghost function Expected(states: map<Record, RecState>, index: Index, instances: seq<Record>, keys: seq<Field>, coerce: Coercion, i: int): (s: RecState)
    requires Keyed(states, instances, keys) && 0 <= i < |instances|
  {
    var t := KeyOf(states, instances, keys, coerce, i);
    if t in index && FirstWithKey(states, instances, keys, coerce, i) then Refreshed(index[t]) else states[instances[i]]
  }

  /** The states after the first instance has been walked. */
  ghost function AfterFirst(states: map<Record, RecState>, index: Index, instances: seq<Record>, keys: seq<Field>, coerce: Coercion): (states': map<Record, RecState>)
    requires Keyed(states, instances, keys) && instances != []
  {
    var t0 := KeyOf(states, instances, keys, coerce, 0);
    if t0 in index then states[instances[0] := Refreshed(index[t0])] else states
  }

  /** One step of the walk over distinct records, and what it leaves for the rest. */
  lemma WalkFirst(states: map<Record, RecState>, index: Index, instances: seq<Record>, keys: seq<Field>, coerce: Coercion)
    requires Keyed(states, instances, keys) && Distinct(instances) && instances != []
    ensures var t0 := KeyOf(states, instances, keys, coerce, 0);
      var states' := AfterFirst(states, index, instances, keys, coerce);
      && Reconcile(states, index, instances, keys, coerce) == Reconcile(states', index - {t0}, instances[1..], keys, coerce)
      && Keyed(states', instances[1..], keys)
      && Distinct(instances[1..])
      && instances[0] !in instances[1..]
      && forall i :: 0 <= i < |instances| - 1 ==> KeyOf(states', instances[1..], keys, coerce, i) == KeyOf(states, instances, keys, coerce, i + 1)
  {
    var t0 := KeyOf(states, instances, keys, coerce, 0);
    if t0 !in index {
      assert index - {t0} == index;
    }
    var rest := instances[1..];
    assert forall i :: 0 <= i < |rest| ==> rest[i] == instances[i + 1] && rest[i] != instances[0];
  }

  /**
   For an instance whose key tuple differs from the first instance's, being
   the first with that tuple among the rest is being the first among all.
   */
  lemma FirstWithKeyShift(states: map<Record, RecState>, states': map<Record, RecState>, instances: seq<Record>,
                          keys: seq<Field>, coerce: Coercion, i: int)
    requires 0 < i < |instances| && Keyed(states, instances, keys) && Keyed(states', instances[1..], keys)
    requires forall k :: 0 <= k < |instances| - 1 ==> KeyOf(states', instances[1..], keys, coerce, k) == KeyOf(states, instances, keys, coerce, k + 1)
    requires KeyOf(states, instances, keys, coerce, i) != KeyOf(states, instances, keys, coerce, 0)
    ensures FirstWithKey(states', instances[1..], keys, coerce, i - 1) <==> FirstWithKey(states, instances, keys, coerce, i)
  {
    var rest := instances[1..];
    var t := KeyOf(states, instances, keys, coerce, i);
    assert KeyOf(states', rest, keys, coerce, i - 1) == t;
    if FirstWithKey(states', rest, keys, coerce, i - 1) {
      forall i' | 0 <= i' < i ensures KeyOf(states, instances, keys, coerce, i') != t {
        if i' > 0 {
          assert KeyOf(states', rest, keys, coerce, i' - 1) == KeyOf(states, instances, keys, coerce, i');
        }
      }
    }
    if FirstWithKey(states, instances, keys, coerce, i) {
      forall i' | 0 <= i' < i - 1 ensures KeyOf(states', rest, keys, coerce, i') != t {
        assert KeyOf(states', rest, keys, coerce, i') == KeyOf(states, instances, keys, coerce, i' + 1);
      }
    }
  }

  /** Past the first instance, what the walk of the rest leaves is what the whole walk leaves. */
  lemma ExpectedShift(states: map<Record, RecState>, index: Index, instances: seq<Record>, keys: seq<Field>, coerce: Coercion, i: int)
    requires Keyed(states, instances, keys) && Distinct(instances) && 0 < i < |instances|
    ensures Keyed(AfterFirst(states, index, instances, keys, coerce), instances[1..], keys) ==>
      Expected(AfterFirst(states, index, instances, keys, coerce), index - {KeyOf(states, instances, keys, coerce, 0)}, instances[1..], keys, coerce, i - 1)
      == Expected(states, index, instances, keys, coerce, i)
  {
    WalkFirst(states, index, instances, keys, coerce);
    var states' := AfterFirst(states, index, instances, keys, coerce);
    var rest := instances[1..];
    var t0 := KeyOf(states, instances, keys, coerce, 0);
    var t := KeyOf(states, instances, keys, coerce, i);
    assert rest[i - 1] == instances[i] && instances[i] != instances[0];
    assert KeyOf(states', rest, keys, coerce, i - 1) == t;
    if t == t0 {
      assert !FirstWithKey(states, instances, keys, coerce, i);
    } else {
      FirstWithKeyShift(states, states', instances, keys, coerce, i);
    }
  }

  /** The key tuples of the rest, with the first one's, are the key tuples of all. */
  lemma AllKeysFirst(states: map<Record, RecState>, index: Index, instances: seq<Record>, keys: seq<Field>, coerce: Coercion)
    requires Keyed(states, instances, keys) && Distinct(instances) && instances != []
    ensures Keyed(AfterFirst(states, index, instances, keys, coerce), instances[1..], keys) ==>
      AllKeys(states, instances, keys, coerce) ==
      {KeyOf(states, instances, keys, coerce, 0)} + AllKeys(AfterFirst(states, index, instances, keys, coerce), instances[1..], keys, coerce)
  {
    WalkFirst(states, index, instances, keys, coerce);
    var states' := AfterFirst(states, index, instances, keys, coerce);
    var rest := instances[1..];
    var t0 := KeyOf(states, instances, keys, coerce, 0);
    var rest' := AllKeys(states', rest, keys, coerce);
    forall t | t in AllKeys(states, instances, keys, coerce) ensures t in {t0} + rest' {
      var i :| 0 <= i < |instances| && KeyOf(states, instances, keys, coerce, i) == t;
      if i > 0 {
        assert KeyOf(states', rest, keys, coerce, i - 1) == t;
      }
    }
    forall t | t in rest' ensures t in AllKeys(states, instances, keys, coerce) {
      var i :| 0 <= i < |rest| && KeyOf(states', rest, keys, coerce, i) == t;
      assert KeyOf(states, instances, keys, coerce, i + 1) == t;
    }
  }

  /**
   The reconcile walk over distinct records, in closed form: it ends normally;
   an instance is refreshed from the index entry for its key tuple exactly
   when that entry exists and no earlier instance has the same tuple (each
   entry is consumed at most once), and every other instance keeps its
   attributes and caches; the entries left are those no instance asked for.
   */
  lemma {:induction false} ReconcileDistinct(states: map<Record, RecState>, index: Index, instances: seq<Record>, keys: seq<Field>, coerce: Coercion)
    requires Keyed(states, instances, keys) && Distinct(instances)
    ensures var p := Reconcile(states, index, instances, keys, coerce);
      && p.outcome == Done
      && (forall i :: 0 <= i < |instances| ==> p.states[instances[i]] == Expected(states, index, instances, keys, coerce, i))
      && p.index == index - AllKeys(states, instances, keys, coerce)
  {
    if instances == [] {
      assert AllKeys(states, instances, keys, coerce) == {};
      assert index - {} == index;
    } else {
      var t0 := KeyOf(states, instances, keys, coerce, 0);
      var states' := AfterFirst(states, index, instances, keys, coerce);
      var index' := index - {t0};
      var rest := instances[1..];
      WalkFirst(states, index, instances, keys, coerce);
      ReconcileDistinct(states', index', rest, keys, coerce);
      var p := Reconcile(states, index, instances, keys, coerce);
      forall i | 0 <= i < |instances|
        ensures p.states[instances[i]] == Expected(states, index, instances, keys, coerce, i)
      {
        if i > 0 {
          ExpectedShift(states, index, instances, keys, coerce, i);
          assert rest[i - 1] == instances[i];
        }
      }
      AllKeysFirst(states, index, instances, keys, coerce);
      assert index' - AllKeys(states', rest, keys, coerce) == index - ({t0} + AllKeys(states', rest, keys, coerce));
    }
  }

  /** Every instance has every key field exactly when the key values can be read off all of them. */
  lemma KeyedIffKeyValues(states: map<Record, RecState>, instances: seq<Record>, keys: seq<Field>, coerce: Coercion)
    requires Tracked(states, instances)
    ensures Keyed(states, instances, keys) <==> KeyValues(Views(states, instances), keys, coerce).Ok?
  {
    var views := Views(states, instances);
    assert forall i :: 0 <= i < |instances| ==> views[i] == states[instances[i]].attrs;
    if KeyValues(views, keys, coerce).Ok? {
      forall i, j | 0 <= i < |instances| && 0 <= j < |keys| ensures keys[j] in states[instances[i]].attrs {
        assert AllHave(views, keys[j]);
      }
    }
  }

  /** An empty collection: nothing is sent, nothing changes. */
  lemma SyncEmptyIsNoop(states: map<Record, RecState>, keys: seq<Field>, columns: set<Field>, coerce: Coercion, store: Store)
    ensures SyncSpec(states, [], keys, columns, coerce, store) == Run(Done, None, states)
  {
  }

  /**
   A call sends exactly one query when the collection is not empty and every
   instance has every key field, and none otherwise, in which case nothing
   changes. The query's filter maps exactly the key fields, each to that
   field's value on every instance, in instance order; its ordering clause is
   the key fields ascending.
   */
  lemma SyncQuery(states: map<Record, RecState>, instances: seq<Record>, keys: seq<Field>,
                  columns: set<Field>, coerce: Coercion, store: Store)
    requires Tracked(states, instances)
    ensures var run := SyncSpec(states, instances, keys, columns, coerce, store);
      && (run.query.Some? <==> instances != [] && Keyed(states, instances, keys))
      && (run.query.None? ==> run.states == states && (run.outcome.Done? <==> instances == []))
      && (run.query.Some? ==>
           var c := run.query.value.conditions;
           && run.query.value.order == OrderClause(keys)
           && (forall k :: k in c <==> k in keys)
           && forall j :: 0 <= j < |keys| ==>
                && |c[keys[j]]| == |instances|
                && forall i :: 0 <= i < |instances| ==> c[keys[j]][i] == coerce(keys[j], states[instances[i]].attrs[keys[j]]))
  {
    KeyedIffKeyValues(states, instances, keys, coerce);
    if instances != [] && Keyed(states, instances, keys) {
      var views := Views(states, instances);
      FilterPerField(views, keys, coerce);
      assert forall i :: 0 <= i < |instances| ==> views[i] == states[instances[i]].attrs;
    }
  }

  /**
   Only the walk changes records, and only the instances: every other record
   keeps its state and no record is added or dropped. A store error or an
   unknown key column stops the call before any record changes; over distinct
   records, no failure leaves a record changed.
   */
  lemma SyncFailureKeepsStates(states: map<Record, RecState>, instances: seq<Record>, keys: seq<Field>,
                               columns: set<Field>, coerce: Coercion, store: Store)
    requires Tracked(states, instances)
    ensures var run := SyncSpec(states, instances, keys, columns, coerce, store);
      && run.states.Keys == states.Keys
      && (forall r :: r in states && r !in instances ==> run.states[r] == states[r])
      && (run.outcome == Raised(QueryFailed) ==> run.states == states)
      && (run.outcome.Raised? && run.outcome.failure.UnknownColumn? ==> run.states == states)
      && (Distinct(instances) && run.outcome.Raised? ==> run.states == states)
  {
    KeyedIffKeyValues(states, instances, keys, coerce);
    if instances != [] && Keyed(states, instances, keys) {
      var query := RefreshQuery(states, instances, keys, coerce);
      if store(query).Some? {
        var rows := store(query).value;
        var built := BuildIndex(rows, keys, columns, coerce);
        if built.Ok? && Distinct(instances) {
          ReconcileDistinct(states, built.value, instances, keys, coerce);
        }
      }
    }
  }

  /**
   A call over distinct records whose every key field is present, when the
   store answers and every key field has a column: it ends normally and sends
   the refresh query; records outside the collection keep their state; and
   the `i`-th instance ends up refreshed from the last row with its key
   tuple, with its caches cleared, when such a row exists and no earlier
   instance has the same tuple, and keeps its attributes and caches
   otherwise.
   */
  lemma SyncRefreshDistinct(states: map<Record, RecState>, instances: seq<Record>, keys: seq<Field>,
                            columns: set<Field>, coerce: Coercion, store: Store)
    requires Keyed(states, instances, keys) && Distinct(instances) && instances != []
    requires KeyValues(Views(states, instances), keys, coerce).Ok?
    requires store(RefreshQuery(states, instances, keys, coerce)).Some?
    requires store(RefreshQuery(states, instances, keys, coerce)).value == [] || forall j :: 0 <= j < |keys| ==> keys[j] in columns
    ensures var rows := store(RefreshQuery(states, instances, keys, coerce)).value;
      var run := SyncSpec(states, instances, keys, columns, coerce, store);
      && run.outcome == Done
      && run.query == Some(RefreshQuery(states, instances, keys, coerce))
      && run.states.Keys == states.Keys
      && (forall r :: r in states && r !in instances ==> run.states[r] == states[r])
      && forall i :: 0 <= i < |instances| ==>
           var j := LastRowWith(rows, keys, coerce, KeyOf(states, instances, keys, coerce, i));
           run.states[instances[i]] ==
             if j >= 0 && FirstWithKey(states, instances, keys, coerce, i) then Refreshed(rows[j]) else states[instances[i]]
  {
    var rows := store(RefreshQuery(states, instances, keys, coerce)).value;
    var index := Fold(rows, keys, coerce);
    assert BuildIndex(rows, keys, columns, coerce) == Ok(index);
    ReconcileDistinct(states, index, instances, keys, coerce);
    var run := SyncSpec(states, instances, keys, columns, coerce, store);
    forall i | 0 <= i < |instances|
      ensures var j := LastRowWith(rows, keys, coerce, KeyOf(states, instances, keys, coerce, i));
        run.states[instances[i]] ==
          if j >= 0 && FirstWithKey(states, instances, keys, coerce, i) then Refreshed(rows[j]) else states[instances[i]]
    {
      FoldLastWins(rows, keys, coerce, KeyOf(states, instances, keys, coerce, i));
    }
  }
}
