/**
 `ActiveRecord::Base.synchronize` (lib/activerecord-import/synchronize.rb,
 lines 24-65): refreshes many record instances from the store with one query.
 The key values of all instances make up the query; the rows that come back
 are indexed by their key tuples; then every instance, in order, looks its own
 key tuple up, and on a hit takes the row (once: the entry is removed) as its
 whole attribute map after its caches are cleared.
 */
module Synchronization {
  import opened Values
  import opened Query
  import opened RowIndex

  /** A memo of derived values kept on a record (aggregations, loaded associations). */
  type Cache = map<string, Value>

  /** Everything a refresh can change about one record. */
  datatype RecState = RecState(attrs: Attrs, aggregationCache: Cache, associationCache: Cache)

  /** The state of a record once a row has been applied: caches empty, attributes the row's. */
  function Refreshed(row: Row): (s: RecState)
  {
    RecState(row, map[], map[])
  }

  /** How a call ends: normally, or with the exception that stopped it. */
  datatype Outcome = Done | Raised(failure: Failure)

  /** A record instance (an `ActiveRecord::Base` object): its attributes and its caches. */
  class Record {
    var attrs: Attrs
    var aggregationCache: Cache
    var associationCache: Cache

    function State(): (s: RecState)
      reads this
    {
      RecState(attrs, aggregationCache, associationCache)
    }

    /** Line 55: the aggregation cache is emptied. */
    method ClearAggregationCache()
      modifies this
      ensures State() == old(State()).(aggregationCache := map[])
    {
      aggregationCache := map[];
    }

    /** Line 56: the association cache is emptied. */
    method ClearAssociationCache()
      modifies this
      ensures State() == old(State()).(associationCache := map[])
    {
      associationCache := map[];
    }

    /** Line 57: the whole attribute map is replaced by the row, no field is merged. */
    method ReplaceAttributes(row: Row)
      modifies this
      ensures State() == old(State()).(attrs := row)
    {
      attrs := row;
    }

    /** The instance method `synchronize`: the class method on the same arguments. */
    method Synchronize(instances: seq<Record>, keys: seq<Field>, columns: set<Field>, coerce: Coercion, store: Store)
      returns (outcome: Outcome, sent: Option<Query>)
      modifies instances
      ensures var run := SyncSpec(old(Snapshot(instances)), instances, keys, columns, coerce, store);
        outcome == run.outcome && sent == run.query && Snapshot(instances) == run.states
    {
      // `_default` names the module-level (class-side) method, not this one.
      outcome, sent := _default.Synchronize(instances, keys, columns, coerce, store);
    }
  }

  /** The states of the given records, by identity. */
  function Snapshot(instances: seq<Record>): (states: map<Record, RecState>)
    reads instances
  {
    map r | r in instances :: r.State()
  }

  /** Every instance has a state in `states`. */
  ghost predicate Tracked(states: map<Record, RecState>, instances: seq<Record>)
  {
    forall i :: 0 <= i < |instances| ==> instances[i] in states
  }

  /** The attribute maps of the instances, in instance order. */
  function Views(states: map<Record, RecState>, instances: seq<Record>): (views: seq<Attrs>)
    requires Tracked(states, instances)
  {
    seq(|instances|, i requires 0 <= i < |instances| && instances[i] in states => states[instances[i]].attrs)
  }

  /**
   An instance's key tuple (line 49): each key field read through its
   attribute reader, which type casts the stored value; reading a key field
   the instance does not have raises for the first such key.
   */
  function InstanceKey(attrs: Attrs, keys: seq<Field>, coerce: Coercion): (r: Result<Tuple>)
    ensures r.Ok? <==> forall j :: 0 <= j < |keys| ==> keys[j] in attrs
    ensures r.Ok? ==> |r.value| == |keys| && forall j :: 0 <= j < |keys| ==> r.value[j] == coerce(keys[j], attrs[keys[j]])
    ensures r.Err? ==> exists j :: (0 <= j < |keys| && r.failure == MissingAttribute(keys[j]) &&
      keys[j] !in attrs && forall j' :: 0 <= j' < j ==> keys[j'] in attrs)
  {
    if keys == [] then Ok([])
    else if keys[0] !in attrs then Err(MissingAttribute(keys[0]))
    else
      match InstanceKey(attrs, keys[1..], coerce)
      case Err(f) =>
        assert exists j :: (0 <= j < |keys[1..]| && f == MissingAttribute(keys[1..][j]) &&
          keys[1..][j] !in attrs && forall j' :: 0 <= j' < j ==> keys[1..][j'] in attrs);
        Err(f)
      case Ok(rest) => Ok([coerce(keys[0], attrs[keys[0]])] + rest)
  }

  /** The records' states, what is left of the index, and how the walk ended. */
  datatype Pass = Pass(states: map<Record, RecState>, index: Index, outcome: Outcome)

  /**
   The reconcile loop (lines 48-59), walking the instances from the front.
   A hit removes the entry from the index and refreshes the instance; a miss
   leaves it as it is. Only a key field missing on an instance stops the walk.
   The records keep their identities and only the walked ones change; the
   index only loses entries.
   */
  function Reconcile(states: map<Record, RecState>, index: Index, instances: seq<Record>, keys: seq<Field>, coerce: Coercion): (p: Pass)
    requires Tracked(states, instances)
    ensures p.states.Keys == states.Keys
    ensures forall r :: r in states && r !in instances ==> p.states[r] == states[r]
    ensures p.index.Keys <= index.Keys
    ensures p.outcome.Done? || p.outcome.failure.MissingAttribute?
    decreases |instances|
  {
    if instances == [] then Pass(states, index, Done)
    else
      var instance := instances[0];
      match InstanceKey(states[instance].attrs, keys, coerce)
      case Err(f) => Pass(states, index, Raised(f))
      case Ok(key) =>
        if key in index then
          Reconcile(states[instance := Refreshed(index[key])], index - {key}, instances[1..], keys, coerce)
        else
          Reconcile(states, index, instances[1..], keys, coerce)
  }

  /** The query a call sends: the per-field filter and the ordering clause. */
  function RefreshQuery(states: map<Record, RecState>, instances: seq<Record>, keys: seq<Field>, coerce: Coercion): (q: Query)
    requires Tracked(states, instances)
    requires KeyValues(Views(states, instances), keys, coerce).Ok?
    ensures q.conditions.Keys == set j | 0 <= j < |keys| :: keys[j]
    ensures q.order == [] <==> keys == []
  {
    Query(Conditions(keys, KeyValues(Views(states, instances), keys, coerce).value), OrderClause(keys))
  }

  /** What a call did: how it ended, the query it sent if any, and the records' states after it. */
  datatype Run = Run(outcome: Outcome, query: Option<Query>, states: map<Record, RecState>)

  /** The whole class method `synchronize` on the records' states. */
  function SyncSpec(states: map<Record, RecState>, instances: seq<Record>, keys: seq<Field>,
                    columns: set<Field>, coerce: Coercion, store: Store): (run: Run)
    requires Tracked(states, instances)
    ensures run.states.Keys == states.Keys
    ensures forall r :: r in states && r !in instances ==> run.states[r] == states[r]
    ensures run.query.None? ==> run.states == states
    ensures run.query.Some? <==> instances != [] && KeyValues(Views(states, instances), keys, coerce).Ok?
  {
    if instances == [] then Run(Done, None, states)
    else
      match KeyValues(Views(states, instances), keys, coerce)
      case Err(f) => Run(Raised(f), None, states)
      case Ok(_) =>
        var query := RefreshQuery(states, instances, keys, coerce);
        match store(query)
        case None => Run(Raised(QueryFailed), Some(query), states)
        case Some(rows) =>
          match BuildIndex(rows, keys, columns, coerce)
          case Err(f) => Run(Raised(f), Some(query), states)
          case Ok(index) =>
            var pass := Reconcile(states, index, instances, keys, coerce);
            Run(pass.outcome, Some(query), pass.states)
  }

  /**
   The class method `synchronize`: one query for all instances, then every
   instance refreshed in place from the row with its key tuple.
   */
  method Synchronize(instances: seq<Record>, keys: seq<Field>, columns: set<Field>, coerce: Coercion, store: Store)
    returns (outcome: Outcome, sent: Option<Query>)
    modifies instances
    ensures var run := SyncSpec(old(Snapshot(instances)), instances, keys, columns, coerce, store);
      outcome == run.outcome && sent == run.query && Snapshot(instances) == run.states
  {
    if |instances| == 0 {
      return Done, None;
    }
    var keyValues := KeyValues(Views(Snapshot(instances), instances), keys, coerce);
    if keyValues.Err? {
      return Raised(keyValues.failure), None;
    }
    var conditions := BuildConditions(keys, keyValues.value);
    var order := OrderClause(keys);
    var query := Query(conditions, order);
    sent := Some(query);
    var freshAttributes := store(query);
    if freshAttributes.None? {
      return Raised(QueryFailed), sent;
    }
    var sorted := IndexRows(freshAttributes.value, keys, columns, coerce);
    if sorted.Err? {
      return Raised(sorted.failure), sent;
    }
    outcome := ReconcileInPlace(instances, sorted.value, keys, coerce);
  }

  /** The reconcile loop (lines 48-59), updating the instances in place. */
  method ReconcileInPlace(instances: seq<Record>, sorted: Index, keys: seq<Field>, coerce: Coercion) returns (outcome: Outcome)
    modifies instances
    ensures var pass := Reconcile(old(Snapshot(instances)), sorted, instances, keys, coerce);
      outcome == pass.outcome && Snapshot(instances) == pass.states
  {
    ghost var initial := Snapshot(instances);
    var index := sorted;
    var i := 0;
    while i < |instances|
      invariant 0 <= i <= |instances|
      invariant Tracked(Snapshot(instances), instances)
      invariant Reconcile(Snapshot(instances), index, instances[i..], keys, coerce) == Reconcile(initial, sorted, instances, keys, coerce)
    {
      var instance := instances[i];
      assert instances[i..][0] == instance && instances[i..][1..] == instances[i + 1..];
      var key := InstanceKey(instance.attrs, keys, coerce);
      if key.Err? {
        return Raised(key.failure);
      }
      if key.value in index {
        var matched := index[key.value];
        index := index - {key.value};
        ApplyRow(instance, matched, instances);
      }
      i := i + 1;
    }
    outcome := Done;
  }

  /**
   Lines 55-57 on one matched instance: both caches cleared, then the whole
   attribute map replaced by the row; no other instance changes.
   */
  method ApplyRow(instance: Record, row: Row, ghost instances: seq<Record>)
    requires instance in instances
    modifies instance
    ensures Snapshot(instances) == old(Snapshot(instances))[instance := Refreshed(row)]
  {
    instance.ClearAggregationCache();
    instance.ClearAssociationCache();
    instance.ReplaceAttributes(row);
  }
}
