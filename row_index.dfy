/**
 The row index (lib/activerecord-import/synchronize.rb, lines 38-46): every
 fresh row is filed under the type-cast values of its key columns; a later
 row with the same key tuple replaces an earlier one.
 */
module RowIndex {
  import opened Values

  /** Key tuple -> the fresh row filed under it (`sorted_attributes`). */
  type Index = map<Tuple, Row>

  /** The raw column value of a row, `nil` when the row has no such column (line 42). */
  function Raw(row: Row, key: Field): (v: Value)
  {
    if key in row then row[key] else Nil
  }

  /** The key tuple of a row: each key column's raw value, type cast for that column. */
  function RowKey(row: Row, keys: seq<Field>, coerce: Coercion): (t: Tuple)
  {
    seq(|keys|, j requires 0 <= j < |keys| => coerce(keys[j], Raw(row, keys[j])))
  }

  /** The first key field, in key order, that names no column of the record's class. */
  function FirstUnknown(keys: seq<Field>, columns: set<Field>): (r: Option<Field>)
    ensures r.None? <==> forall j :: 0 <= j < |keys| ==> keys[j] in columns
    ensures r.Some? ==> exists j :: (0 <= j < |keys| && keys[j] == r.value && r.value !in columns &&
      forall j' :: 0 <= j' < j ==> keys[j'] in columns)
  {
    if keys == [] then None
    else if keys[0] !in columns then Some(keys[0])
    else
      var r := FirstUnknown(keys[1..], columns);
      assert r.Some? ==> exists j :: (0 <= j < |keys[1..]| && keys[1..][j] == r.value && r.value !in columns &&
        forall j' :: 0 <= j' < j ==> keys[1..][j'] in columns);
      r
  }

  /**
   The key tuple of one row as lines 40-43 compute it: each key field's column
   is looked up and casts the raw value; the first key field that has no
   column raises.
   */
  function TypedKey(row: Row, keys: seq<Field>, columns: set<Field>, coerce: Coercion): (r: Result<Tuple>)
    ensures r.Err? <==> FirstUnknown(keys, columns).Some?
    ensures r.Err? ==> r.failure == UnknownColumn(FirstUnknown(keys, columns).value)
    ensures r.Ok? ==> r.value == RowKey(row, keys, coerce)
  {
    if keys == [] then Ok([])
    else if keys[0] !in columns then Err(UnknownColumn(keys[0]))
    else
      match TypedKey(row, keys[1..], columns, coerce)
      case Err(f) => Err(f)
      case Ok(rest) => Ok([coerce(keys[0], Raw(row, keys[0]))] + rest)
  }

  /**
   The `inject` at lines 38-46 as a left fold: each row in turn is stored
   under its key tuple. The index holds exactly the key tuples of the rows.
   */
  function Fold(rows: seq<Row>, keys: seq<Field>, coerce: Coercion): (index: Index)
    ensures index.Keys == set j | 0 <= j < |rows| :: RowKey(rows[j], keys, coerce)
  {
    if rows == [] then map[]
    else
      var n := |rows| - 1;
      var prefix := Fold(rows[..n], keys, coerce);
      assert forall j :: 0 <= j < n ==> rows[..n][j] == rows[j];
      prefix[RowKey(rows[n], keys, coerce) := rows[n]]
  }

  /**
   The whole index step: the fold, except that with at least one row a key
   field without a column raises while the first row is being filed.
   */
  function BuildIndex(rows: seq<Row>, keys: seq<Field>, columns: set<Field>, coerce: Coercion): (r: Result<Index>)
    ensures r.Err? <==> rows != [] && exists j :: 0 <= j < |keys| && keys[j] !in columns
    ensures r.Err? ==> exists j :: (0 <= j < |keys| && r.failure == UnknownColumn(keys[j]) && keys[j] !in columns &&
      forall j' :: 0 <= j' < j ==> keys[j'] in columns)
    ensures r.Ok? ==> r.value.Keys == set j | 0 <= j < |rows| :: RowKey(rows[j], keys, coerce)
  {
    if rows != [] && FirstUnknown(keys, columns).Some? then Err(UnknownColumn(FirstUnknown(keys, columns).value))
    else Ok(Fold(rows, keys, coerce))
  }

  /** The `inject` loop, filing the rows one by one into a hash. */
  method IndexRows(rows: seq<Row>, keys: seq<Field>, columns: set<Field>, coerce: Coercion) returns (r: Result<Index>)
    ensures r == BuildIndex(rows, keys, columns, coerce)
  {
    var sorted: Index := map[];
    for i := 0 to |rows|
      invariant sorted == Fold(rows[..i], keys, coerce)
      invariant i > 0 ==> FirstUnknown(keys, columns).None?
    {
      var key := TypedKey(rows[i], keys, columns, coerce);
      if key.Err? {
        return Err(key.failure);
      }
      assert rows[..i + 1][..i] == rows[..i];
      sorted := sorted[key.value := rows[i]];
    }
    assert rows[..|rows|] == rows;
    return Ok(sorted);
  }

  /**
   The position of the last row whose key tuple is `t`, or -1 when no row has
   it.
   */
  function LastRowWith(rows: seq<Row>, keys: seq<Field>, coerce: Coercion, t: Tuple): (j: int)
    ensures -1 <= j < |rows|
    ensures j >= 0 ==> RowKey(rows[j], keys, coerce) == t
    ensures forall j' :: j < j' < |rows| ==> RowKey(rows[j'], keys, coerce) != t
  {
    if rows == [] then -1
    else
      var n := |rows| - 1;
      if RowKey(rows[n], keys, coerce) == t then n
      else
        var j := LastRowWith(rows[..n], keys, coerce, t);
        assert forall j' :: j < j' < n ==> rows[..n][j'] == rows[j'];
        assert j >= 0 ==> rows[..n][j] == rows[j];
        j
  }

  /**
   Last write wins: the index has an entry for a key tuple exactly when some
   row has that tuple, and the entry is the last such row.
   */
  lemma {:induction false} FoldLastWins(rows: seq<Row>, keys: seq<Field>, coerce: Coercion, t: Tuple)
    ensures t in Fold(rows, keys, coerce) <==> LastRowWith(rows, keys, coerce, t) >= 0
    ensures t in Fold(rows, keys, coerce) ==> Fold(rows, keys, coerce)[t] == rows[LastRowWith(rows, keys, coerce, t)]
  {
    if rows != [] {
      var n := |rows| - 1;
      if RowKey(rows[n], keys, coerce) != t {
        FoldLastWins(rows[..n], keys, coerce, t);
        var j := LastRowWith(rows[..n], keys, coerce, t);
        assert j >= 0 ==> rows[..n][j] == rows[j];
      }
    }
  }
}
