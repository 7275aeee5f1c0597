# Batch refresh of ActiveRecord instances (`synchronize`)

This project models `ActiveRecord::Base.synchronize` from activerecord-import in Dafny.
The routine reloads many record instances with a single query instead of one query per record.
It has four steps:

1. It collects every key field's values across all instances, as the attribute readers return them (type cast).
2. It builds a per-field filter and an ordering clause, `"k1 ASC,k2 ASC"`, and sends one query.
3. It indexes the returned rows by their type-cast key tuples. A later row with the same tuple replaces an earlier one.
4. It walks the instances in order. An instance whose key tuple (read through its type-casting attribute readers) is in the index takes that row as its whole attribute map, once its two caches are cleared. The entry is then removed, so no later instance can take it. An instance whose tuple is not in the index is left alone.

Files (one module each):

- `values.dfy` (`Values`): field names, values, rows, key tuples and the failures a call can raise.
- `query.dfy` (`Query`): key-value collection, the filter and the ordering clause (lines 30-32).
- `row_index.dfy` (`RowIndex`): the row index (lines 38-46).
- `synchronize.dfy` (`Synchronization`): the `Record` class, the reconcile walk (lines 48-59), the class method and the instance method.
- `properties.dfy` (`Properties`): what a call guarantees, proved on the specification functions.
- `scenarios.dfy` (`Scenarios`): concrete calls. Two follow the usage examples in the source's doc comment: a refresh on an explicit symbol key `[:id]` after a rename (the doc example itself uses the default key, which raises as described under "## Left out"), and a refresh by name after an address change. The third is a miss: a post synchronized by a name the store no longer has.

The class method `Synchronization.Synchronize` and the instance method `Synchronization.Record.Synchronize` are imperative.
They update the `Record` objects in place and are proved against the pure function `SyncSpec`.
`SyncSpec` describes the records' states as a map keyed by object identity.
Because of that map, a collection that holds the same object twice is modelled: the object's second visit reads its key fields from the row applied at its first.
The loops that fill the filter hash (line 31) and the row index (lines 38-46) are methods as well.
They are proved equal to the folds `Conditions` and `Fold`.

Three collaborators are passed in as parameters:

- the store, `store: Query -> Option<seq<Row>>`, which answers the one query or fails;
- the column type cast, `coerce: (Field, Value) -> Value`;
- the class's column names, `columns: set<Field>`.

Points where the code's behaviour is easy to misread:

- The filter does not map each key to a *set* of distinct values. It maps each key to the list of that field's values, one per instance, in instance order. Duplicates are kept.
- A key field that names no column is not rejected before the query. It raises only while the first returned row is being indexed. When no rows come back, nothing is raised. In practice this path is reached by a string key, as with the default key (see "## Left out"). A key that names no real column at all would normally make the database reject the query at line 36, which the model shows as the store's failure.
- A key field missing on an instance raises at line 30, before any query is sent.
- Both sides of the lookup at line 50 are type-cast values. The instance's key fields are read through its attribute readers (lines 30 and 49), which cast the stored value. The row's key columns are cast at line 42. The model applies the same column type cast, `coerce`, to both. So an instance that stores the text "1" for an integer `id` matches a row whose `id` is "1".
- There is no per-row handling of a failed type cast. The cast is a total function here.

## Model

| member | source | states |
|---|---|---|
| `Query.ColumnOf` | lib/activerecord-import/synchronize.rb:30 | succeeds iff every instance has the key field; the result then holds that field's type-cast value of every instance, in instance order; otherwise the failure names that field |
| `Query.KeyValues` | lib/activerecord-import/synchronize.rb:30 | succeeds iff every instance has every key field; then one column per key field, as long as the collection, holding the instances' type-cast values; otherwise it reports the first key field, in key order, that some instance lacks |
| `Query.Conditions` | lib/activerecord-import/synchronize.rb:31 | the filter hash has exactly the key fields as keys |
| `Query.BuildConditions` | lib/activerecord-import/synchronize.rb:31 | the `each` loop that fills the hash yields exactly the fold `Conditions` |
| `Query.ConditionsConsistent` | lib/activerecord-import/synchronize.rb:31 | when equal keys carry equal values, each key maps to its own value even though a repeated key is assigned again |
| `Query.FilterPerField` | lib/activerecord-import/synchronize.rb:30-31 | the filter maps exactly the key fields, each to that field's type-cast value on every instance in instance order (length = number of instances) |
| `Query.OrderClause` | lib/activerecord-import/synchronize.rb:32 | the ordering string is empty iff there are no key fields |
| `Query.OrderClauseTerms` | lib/activerecord-import/synchronize.rb:32 | when no key contains a comma, splitting the ordering string at commas gives back exactly `"<key> ASC"` per key field, in key order |
| `RowIndex.FirstUnknown` | lib/activerecord-import/synchronize.rb:41 | none iff every key field names a column; otherwise the first key field, in key order, that names none |
| `RowIndex.TypedKey` | lib/activerecord-import/synchronize.rb:40-43 | raises `UnknownColumn` for exactly the first key field without a column; otherwise gives the row's key tuple, each raw column value (`nil` if absent) type cast |
| `RowIndex.Fold` | lib/activerecord-import/synchronize.rb:38-46 | the index holds exactly the key tuples of the rows |
| `RowIndex.IndexRows` | lib/activerecord-import/synchronize.rb:38-46 | the `inject` loop gives the fold of all rows, or the unknown-column failure when there is at least one row and a key field has no column |
| `RowIndex.BuildIndex` | lib/activerecord-import/synchronize.rb:38-46 | fails iff at least one row comes back and some key field names no column, naming the first such key field in key order; otherwise the index holds exactly the rows' key tuples |
| `RowIndex.FoldLastWins` | lib/activerecord-import/synchronize.rb:44 | the index has an entry for a tuple iff some row has that tuple, and the entry is the last such row (later rows overwrite earlier ones) |
| `Synchronization.Record.ClearAggregationCache` | lib/activerecord-import/synchronize.rb:55 | empties the aggregation cache, nothing else changes |
| `Synchronization.Record.ClearAssociationCache` | lib/activerecord-import/synchronize.rb:56 | empties the association cache, nothing else changes |
| `Synchronization.Record.ReplaceAttributes` | lib/activerecord-import/synchronize.rb:57 | the whole attribute map becomes the row; no per-field merge; caches untouched |
| `Synchronization.InstanceKey` | lib/activerecord-import/synchronize.rb:49 | succeeds iff the instance has every key field, giving their type-cast values in key order; otherwise names the first missing key field |
| `Synchronization.Reconcile` | lib/activerecord-import/synchronize.rb:48-59 | the walk keeps every record's identity (same key set of states), leaves records outside the collection unchanged, only removes index entries, and can only stop on a missing attribute |
| `Synchronization.RefreshQuery` | lib/activerecord-import/synchronize.rb:30-32 | the query's filter maps exactly the key fields; the ordering string is empty iff there are no key fields (the filter's per-instance contents are stated by `Properties.SyncQuery`) |
| `Synchronization.SyncSpec` | lib/activerecord-import/synchronize.rb:24-60 | the whole class method on the records' states: a query is sent iff the collection is non-empty and every instance has every key field; with no query no record changes; no record is created or dropped; records outside the collection keep their state |
| `Synchronization.ApplyRow` | lib/activerecord-import/synchronize.rb:55-57 | the matched instance ends with both caches empty and the row as its attributes; no other instance changes |
| `Synchronization.ReconcileInPlace` | lib/activerecord-import/synchronize.rb:48-59 | the in-place loop over the instances ends in exactly the states and outcome of `Reconcile` on the old states |
| `Synchronization.Synchronize` | lib/activerecord-import/synchronize.rb:24-60 | the class method's outcome, the query it sends and the records' new states are those of `SyncSpec` on the old states |
| `Synchronization.Record.Synchronize` | lib/activerecord-import/synchronize.rb:63-65 | the instance method has the same outcome, query and new states as the class method on the same arguments |
| `Properties.KeyedIffKeyValues` | lib/activerecord-import/synchronize.rb:30 | key collection succeeds iff every instance has every key field |
| `Properties.SyncEmptyIsNoop` | lib/activerecord-import/synchronize.rb:25 | an empty collection returns normally, sends no query and changes nothing |
| `Properties.SyncQuery` | lib/activerecord-import/synchronize.rb:25-36 | a query is sent iff the collection is non-empty and every instance has every key field; with no query nothing changes; the query's filter maps exactly the key fields, each to every instance's type-cast value in order, and its order is `OrderClause(keys)` |
| `Properties.SyncFailureKeepsStates` | lib/activerecord-import/synchronize.rb:35-59 | no record is created or dropped and records outside the collection are untouched; a store failure or unknown column leaves every record unchanged; over distinct records no failure leaves a record changed |
| `Properties.ReconcileDistinct` | lib/activerecord-import/synchronize.rb:48-59 | over distinct records the walk ends normally; instance i is refreshed from the entry for its tuple iff that entry exists and no earlier instance has the same tuple (each entry consumed at most once), else it keeps attributes and caches; the entries left are exactly those no instance's tuple named |
| `Properties.SyncRefreshDistinct` | lib/activerecord-import/synchronize.rb:24-60 | a full call over distinct records ends normally; instance i is replaced by the last row with its key tuple, caches cleared, iff such a row exists and no earlier instance has that tuple; all other records keep their state |
| `Scenarios.RefreshByPrimaryKey` | lib/activerecord-import/synchronize.rb:12-16 | the first doc example called with an explicit symbol key (`[:id]`) rather than the default key: after an out-of-band rename, synchronizing on `id` gives the first post the name "Zachary" and empty caches |
| `Scenarios.RefreshAddressByName` | lib/activerecord-import/synchronize.rb:18-22 | after Zach's address changed in the store, synchronizing on the custom key `name` matches the first post on its unchanged name; its address becomes "1245 Foo Ln" and its caches are emptied |
| `Scenarios.CastKeysMatch` | lib/activerecord-import/synchronize.rb:42-50 | an instance storing the text "1" as `id` is matched with a row whose raw `id` is "1" when the cast reads both as the number 1, and takes that row with empty caches |
| `Scenarios.StaleByOldName` | lib/activerecord-import/synchronize.rb:52 | a miss: synchronizing on `name` when no row is named "Zach" any more leaves that post stale, caches included, while the post named "Amy" is matched |

## Left out

- Building the SQL text and running it on the connection (lines 35-36) are left out. The model sends a `Query` value to a store function and takes its rows or its failure.
- The column lookup and the column type cast (lines 41-42) are left out. The class's column names are a `set<Field>` parameter and the type cast is a total `Coercion` parameter. A failing cast is not modelled.
- `Synchronization.InstanceKey`: the attribute reader's cast is taken to be the column type cast `coerce` that line 42 applies to rows. For a key field that names no column, a Rails reader returns the stored value uncast. The model still applies `coerce`, so the two agree only when `coerce` leaves non-column fields unchanged. `Query.ColumnOf` makes the same assumption at line 30.
- `HashWithIndifferentAccess` and the `to_sym` conversions (lines 30, 39, 41, 49) are left out. There is one canonical field-name type, so symbol and string keys cannot disagree. That includes line 41, where a column name turned into a symbol is compared with the key. In the code a string key never equals that symbol, so its column is not found and line 42 raises on the first returned row. The model has no string keys, so it cannot show this; a caller passing a string key corresponds to the model's `UnknownColumn` failure only when at least one row comes back.
- What the two cache-clearing methods do inside is not part of this model. Each cache is a map that is emptied. Setting the attributes instance variable is a field assignment.
- The default key arguments (`[self.primary_key]` at line 24, `[ActiveRecord::Base.primary_key]` at line 63) are left out. Callers always pass the key fields. In the code the default key is the primary key name as a string (`"id"`), so a call without keys hits the line 41 mismatch above: as soon as the store returns a row, line 42 raises instead of refreshing. The first doc example (lines 12-16) is such a call; `Scenarios.RefreshByPrimaryKey` models it with an explicit symbol key instead.
- Taking the record class from the first instance (line 34) is left out. The record class appears only through its `columns`.
- Ruby's return value (`nil`, or the instance array) is left out. The methods return an `Outcome` and the query that was sent, if any.
- `Properties.ReconcileDistinct`: the closed form is stated only for collections in which no object appears twice. With a repeated object, the exact behaviour is still given by `Reconcile` and `SyncSpec`, since both are keyed by object identity. That includes a later read of a key the applied row lacks.
- `Properties.SyncRefreshDistinct`: the same restriction to distinct objects applies.
