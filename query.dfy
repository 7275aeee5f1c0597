/**
 The query a refresh sends to the store (lib/activerecord-import/synchronize.rb,
 lines 30-32): for every key field, the values that field has across all
 instances, gathered into a per-field filter, and an ordering clause that
 sorts by every key field ascending.
 */
module Query {
  import opened Values

  /** What the store is asked for: a per-field `IN` filter and an ordering clause. */
  datatype Query = Query(conditions: map<Field, seq<Value>>, order: string)

  /** The store: answers a query with rows, or with `None` when it reports an error. */
  type Store = Query -> Option<seq<Row>>

  /** Every instance has an attribute named `key`. */
  ghost predicate AllHave(views: seq<Attrs>, key: Field)
  {
    forall i :: 0 <= i < |views| ==> key in views[i]
  }

  /**
   One key field read off every instance (line 30), in instance order. The
   attribute reader returns the stored value type cast for that field;
   reading it from an instance without that attribute raises.
   */
  function ColumnOf(views: seq<Attrs>, key: Field, coerce: Coercion): (r: Result<seq<Value>>)
    ensures r.Ok? <==> AllHave(views, key)
    ensures r.Ok? ==> |r.value| == |views| && forall i :: 0 <= i < |views| ==> r.value[i] == coerce(key, views[i][key])
    ensures r.Err? ==> r.failure == MissingAttribute(key)
  {
    if views == [] then Ok([])
    else if key !in views[0] then Err(MissingAttribute(key))
    else
      match ColumnOf(views[1..], key, coerce)
      case Err(f) => Err(f)
      case Ok(rest) => Ok([coerce(key, views[0][key])] + rest)
  }

  /**
   The key values of line 30: one column of values per key field. The first
   key field (in key order) that some instance lacks is the one reported.
   */
  function KeyValues(views: seq<Attrs>, keys: seq<Field>, coerce: Coercion): (r: Result<seq<seq<Value>>>)
    ensures r.Ok? <==> forall j :: 0 <= j < |keys| ==> AllHave(views, keys[j])
    ensures r.Ok? ==> |r.value| == |keys|
    ensures r.Ok? ==> forall j :: 0 <= j < |keys| ==>
      |r.value[j]| == |views| && forall i :: 0 <= i < |views| ==> r.value[j][i] == coerce(keys[j], views[i][keys[j]])
    ensures r.Err? ==> exists j :: (0 <= j < |keys| && r.failure == MissingAttribute(keys[j]) &&
      !AllHave(views, keys[j]) && forall j' :: 0 <= j' < j ==> AllHave(views, keys[j']))
  {
    if keys == [] then Ok([])
    else
      match ColumnOf(views, keys[0], coerce)
      case Err(f) => Err(f)
      case Ok(column) =>
        match KeyValues(views, keys[1..], coerce)
        case Err(f) => Err(f)
        case Ok(rest) => Ok([column] + rest)
  }

  /**
   The filter of line 31, each key paired with its column of values, as the
   hash it ends up as, written as a left fold; a repeated key is assigned
   again.
   */
  function Conditions(keys: seq<Field>, values: seq<seq<Value>>): (c: map<Field, seq<Value>>)
    requires |values| == |keys|
    ensures c.Keys == set j | 0 <= j < |keys| :: keys[j]
  {
    if keys == [] then map[]
    else
      var n := |keys| - 1;
      Conditions(keys[..n], values[..n])[keys[n] := values[n]]
  }

  /** The loop at line 31 that fills the `conditions` hash. */
  method BuildConditions(keys: seq<Field>, values: seq<seq<Value>>) returns (conditions: map<Field, seq<Value>>)
    requires |values| == |keys|
    ensures conditions == Conditions(keys, values)
  {
    conditions := map[];
    for i := 0 to |keys|
      invariant conditions == Conditions(keys[..i], values[..i])
    {
      assert keys[..i + 1][..i] == keys[..i] && values[..i + 1][..i] == values[..i];
      conditions := conditions[keys[i] := values[i]];
    }
    assert keys[..|keys|] == keys && values[..|values|] == values;
  }

  /**
   When equal keys carry equal values (as they do when the values come from
   the keys), every key maps to its own value, whichever assignment was last.
   */
  lemma {:induction false} ConditionsConsistent(keys: seq<Field>, values: seq<seq<Value>>)
    requires |values| == |keys|
    requires forall j, j' :: 0 <= j < |keys| && 0 <= j' < |keys| && keys[j] == keys[j'] ==> values[j] == values[j']
    ensures forall j :: 0 <= j < |keys| ==> Conditions(keys, values)[keys[j]] == values[j]
  {
    if keys != [] {
      var n := |keys| - 1;
      ConditionsConsistent(keys[..n], values[..n]);
      forall j | 0 <= j < |keys|
        ensures Conditions(keys, values)[keys[j]] == values[j]
      {
        if keys[j] != keys[n] {
          assert keys[..n][j] == keys[j];
        }
      }
    }
  }

  /**
   The filter maps exactly the key fields, each to the values of that field
   taken from every instance in instance order (so one value per instance).
   */
  lemma FilterPerField(views: seq<Attrs>, keys: seq<Field>, coerce: Coercion)
    requires KeyValues(views, keys, coerce).Ok?
    ensures var c := Conditions(keys, KeyValues(views, keys, coerce).value);
      && (forall k :: k in c <==> k in keys)
      && forall j :: 0 <= j < |keys| ==>
        |c[keys[j]]| == |views| && forall i :: 0 <= i < |views| ==> c[keys[j]][i] == coerce(keys[j], views[i][keys[j]])
  {
    var values := KeyValues(views, keys, coerce).value;
    forall j, j' | 0 <= j < |keys| && 0 <= j' < |keys| && keys[j] == keys[j']
      ensures values[j] == values[j']
    {
    }
    ConditionsConsistent(keys, values);
    var c := Conditions(keys, values);
    forall k ensures k in c <==> k in keys {
      if k in keys {
        var j :| 0 <= j < |keys| && keys[j] == k;
      }
    }
  }

  /** One ordering term: the key field followed by ` ASC`. */
  function Ascending(key: Field): (term: string)
  {
    key + " ASC"
  }

  /** The parts, in order, with `sep` between neighbours. */
  function Join(parts: seq<string>, sep: char): (s: string)
  {
    if parts == [] then ""
    else if |parts| == 1 then parts[0]
    else parts[0] + [sep] + Join(parts[1..], sep)
  }

  /** Splits a string at every `sep`; the reading of a joined list. */
  function Split(s: string, sep: char): (parts: seq<string>)
    ensures |parts| >= 1
  {
    if s == [] then [""]
    else
      var rest := Split(s[1..], sep);
      if s[0] == sep then [""] + rest
      else [[s[0]] + rest[0]] + rest[1..]
  }

  /** The ordering terms, one per key field, in key order. */
  function OrderTerms(keys: seq<Field>): (terms: seq<string>)
  {
    seq(|keys|, j requires 0 <= j < |keys| => Ascending(keys[j]))
  }

  /** The ordering clause of line 32: one ascending term per key field, comma-separated. */
  function OrderClause(keys: seq<Field>): (order: string)
    ensures order == [] <==> keys == []
  {
    Join(OrderTerms(keys), ',')
  }

  /** A piece without a separator splits into itself alone. */
  lemma {:induction false} SplitPiece(p: string, sep: char)
    requires sep !in p
    ensures Split(p, sep) == [p]
  {
    if p != [] {
      SplitPiece(p[1..], sep);
      assert [p[0]] + p[1..] == p;
    }
  }

  /** A piece followed by a separator splits off as the first part. */
  lemma {:induction false} SplitAfterPiece(p: string, sep: char, s: string)
    requires sep !in p
    ensures Split(p + [sep] + s, sep) == [p] + Split(s, sep)
  {
    if p == [] {
      assert p + [sep] + s == [sep] + s;
      assert ([sep] + s)[1..] == s;
    } else {
      SplitAfterPiece(p[1..], sep, s);
      assert (p + [sep] + s)[1..] == p[1..] + [sep] + s;
      assert [p[0]] + p[1..] == p;
    }
  }

  /** Splitting a join at its separator gives the parts back. */
  lemma {:induction false} SplitJoin(parts: seq<string>, sep: char)
    requires parts != []
    requires forall j :: 0 <= j < |parts| ==> sep !in parts[j]
    ensures Split(Join(parts, sep), sep) == parts
  {
    if |parts| == 1 {
      SplitPiece(parts[0], sep);
    } else {
      SplitJoin(parts[1..], sep);
      SplitAfterPiece(parts[0], sep, Join(parts[1..], sep));
      assert [parts[0]] + parts[1..] == parts;
    }
  }

  /**
   When no key field contains a comma, the ordering clause reads back as
   exactly one `"<key> ASC"` term per key field, in key order.
   */
  lemma OrderClauseTerms(keys: seq<Field>)
    requires keys != []
    requires forall j :: 0 <= j < |keys| ==> ',' !in keys[j]
    ensures Split(OrderClause(keys), ',') == seq(|keys|, j requires 0 <= j < |keys| => keys[j] + " ASC")
  {
    var terms := OrderTerms(keys);
    forall j | 0 <= j < |terms| ensures ',' !in terms[j] {
      assert terms[j] == keys[j] + " ASC";
    }
    SplitJoin(terms, ',');
  }
}
