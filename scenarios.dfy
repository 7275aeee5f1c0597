/**
 Concrete calls. The first two follow the usage examples in the comment of
 lib/activerecord-import/synchronize.rb (lines 11-22): a post whose author was
 renamed in the store is refreshed on an explicit symbol key `[:id]` (the
 example itself relies on the default key, a string, which line 41 never
 matches, so that call raises at line 42), and a post whose address changed
 in the store is refreshed by its unchanged name. The third shows a
 miss (line 52): after a rename, a post synchronized by its old name finds no
 row and is left as it was. The last shows that an instance's key and a
 row's key are both type cast before they are compared (lines 42 and 49).
 */
module Scenarios {
  import opened Values
  import opened Query
  import opened RowIndex
  import opened Synchronization
  import opened Properties

  function Post(id: int, name: string): (p: Attrs)
    ensures "id" in p && p["id"] == Int(id) && "name" in p && p["name"] == Text(name)
  {
    assert "id" != "name" by { assert "id"[0] != "name"[0]; }
    map["id" := Int(id), "name" := Text(name)]
  }

  /** A post that also records its author's address. */
  function Listing(id: int, name: string, address: string): (p: Attrs)
    ensures "id" in p && p["id"] == Int(id) && "name" in p && p["name"] == Text(name)
    ensures "address" in p && p["address"] == Text(address)
  {
    assert "id" != "name" && "id" != "address" && "name" != "address" by {
      assert "id"[0] != "name"[0] && "id"[0] != "address"[0] && "name"[0] != "address"[0];
    }
    map["id" := Int(id), "name" := Text(name), "address" := Text(address)]
  }

  /** The store after Zach's address changed: every query gets both current rows. */
  function Moved(q: Query): (rows: Option<seq<Row>>)
  {
    Some([Listing(1, "Zach", "1245 Foo Ln"), Listing(2, "Amy", "7 Elm St")])
  }

  /** The posts as loaded before the address change. */
  function LoadedAt(zach: Record, amy: Record, cache: Cache): (states: map<Record, RecState>)
  {
    map[zach := RecState(Listing(1, "Zach", "9 Old Rd"), cache, cache),
        amy := RecState(Listing(2, "Amy", "7 Elm St"), cache, cache)]
  }

  /** The store after the out-of-band rename: every query gets both current rows. */
  function Renamed(q: Query): (rows: Option<seq<Row>>)
  {
    Some([Post(1, "Zachary"), Post(2, "Amy")])
  }

  function Loaded(zach: Record, amy: Record, cache: Cache): (states: map<Record, RecState>)
  {
    map[zach := RecState(Post(1, "Zach"), cache, cache), amy := RecState(Post(2, "Amy"), cache, cache)]
  }

  lemma InstanceKeySingle(attrs: Attrs, key: Field, coerce: Coercion)
    requires key in attrs
    ensures InstanceKey(attrs, [key], coerce) == Ok([coerce(key, attrs[key])])
  {
    var keys := [key];
    assert keys[0] in attrs && keys[1..] == [];
    assert InstanceKey(attrs, keys[1..], coerce) == Ok([]);
    assert InstanceKey(attrs, keys, coerce) == Ok([coerce(keys[0], attrs[keys[0]])] + []);
    assert [coerce(keys[0], attrs[keys[0]])] + [] == [coerce(key, attrs[key])];
  }

  lemma FoldTwo(rows: seq<Row>, key: Field)
    requires |rows| == 2 && key in rows[0] && key in rows[1] && rows[0][key] != rows[1][key]
    ensures Fold(rows, [key], (f, v) => v) == map[[rows[0][key]] := rows[0], [rows[1][key]] := rows[1]]
  {
    var coerce: Coercion := (f, v) => v;
    forall r | r in rows ensures RowKey(r, [key], coerce) == [r[key]] {
      var t := RowKey(r, [key], coerce);
      assert |t| == 1 && t[0] == coerce(key, Raw(r, key)) == r[key];
    }
    assert rows[..1] == [rows[0]] && rows[..1][..0] == [];
  }

  /**
   Synchronizing the posts on the explicit key `[:id]`: matched on `id`, the first post now reads
   "Zachary" and has lost its cached values; the second post takes its
   (identical) row as well.
   */
  lemma RefreshByPrimaryKey(zach: Record, amy: Record, cache: Cache)
    requires zach != amy
    ensures var run := SyncSpec(Loaded(zach, amy, cache), [zach, amy], ["id"], {"id", "name"}, (f, v) => v, Renamed);
      && run.outcome == Done
      && run.states[zach] == RecState(Post(1, "Zachary"), map[], map[])
      && run.states[amy] == RecState(Post(2, "Amy"), map[], map[])
  {
    var states := Loaded(zach, amy, cache);
    var instances := [zach, amy];
    var rows := [Post(1, "Zachary"), Post(2, "Amy")];
    var coerce: Coercion := (f, v) => v;
    var index := Fold(rows, ["id"], coerce);
    FoldTwo(rows, "id");
    InstanceKeySingle(Post(1, "Zach"), "id", coerce);
    InstanceKeySingle(Post(2, "Amy"), "id", coerce);
    KeyedIffKeyValues(states, instances, ["id"], coerce);
    assert KeyValues(Views(states, instances), ["id"], coerce).Ok?;
    assert BuildIndex(rows, ["id"], {"id", "name"}, coerce) == Ok(index);
    var states1 := states[zach := Refreshed(rows[0])];
    assert Reconcile(states, index, instances, ["id"], coerce) == Reconcile(states1, index - {[Int(1)]}, [amy], ["id"], coerce) by {
      assert instances[1..] == [amy];
    }
    assert states1[amy] == states[amy];
    assert Reconcile(states1, index - {[Int(1)]}, [amy], ["id"], coerce)
        == Pass(states1[amy := Refreshed(rows[1])], index - {[Int(1)]} - {[Int(2)]}, Done);
  }

  /**
   Synchronizing the posts on the custom key `name` after Zach's address
   changed: the first post is matched on its unchanged name and now has the
   new address, with its cached values gone; the second post takes its
   (identical) row as well.
   */
  lemma RefreshAddressByName(zach: Record, amy: Record, cache: Cache)
    requires zach != amy
    ensures var run := SyncSpec(LoadedAt(zach, amy, cache), [zach, amy], ["name"], {"id", "name", "address"}, (f, v) => v, Moved);
      && run.outcome == Done
      && run.states[zach].attrs["address"] == Text("1245 Foo Ln")
      && run.states[zach] == RecState(Listing(1, "Zach", "1245 Foo Ln"), map[], map[])
      && run.states[amy] == RecState(Listing(2, "Amy", "7 Elm St"), map[], map[])
  {
    var states := LoadedAt(zach, amy, cache);
    var instances := [zach, amy];
    var rows := [Listing(1, "Zach", "1245 Foo Ln"), Listing(2, "Amy", "7 Elm St")];
    var coerce: Coercion := (f, v) => v;
    var index := MovedIndex();
    InstanceKeySingle(Listing(1, "Zach", "9 Old Rd"), "name", coerce);
    InstanceKeySingle(Listing(2, "Amy", "7 Elm St"), "name", coerce);
    KeyedIffKeyValues(states, instances, ["name"], coerce);
    assert KeyValues(Views(states, instances), ["name"], coerce).Ok?;
    assert BuildIndex(rows, ["name"], {"id", "name", "address"}, coerce) == Ok(index);
    MovedPass(zach, amy, cache, index);
  }

  /** The rows after the address change, indexed by name. */
  lemma MovedIndex() returns (index: Index)
    ensures var rows := [Listing(1, "Zach", "1245 Foo Ln"), Listing(2, "Amy", "7 Elm St")];
      && index == Fold(rows, ["name"], (f, v) => v)
      && index == map[[Text("Zach")] := rows[0], [Text("Amy")] := rows[1]]
  {
    var rows := [Listing(1, "Zach", "1245 Foo Ln"), Listing(2, "Amy", "7 Elm St")];
    assert "Zach" != "Amy" by { assert "Zach"[0] != "Amy"[0]; }
    FoldTwo(rows, "name");
    index := Fold(rows, ["name"], (f, v) => v);
  }

  /** The walk over the two posts with the index of the moved rows. */
  lemma MovedPass(zach: Record, amy: Record, cache: Cache, index: Index)
    requires zach != amy
    requires index == map[[Text("Zach")] := Listing(1, "Zach", "1245 Foo Ln"), [Text("Amy")] := Listing(2, "Amy", "7 Elm St")]
    ensures var p := Reconcile(LoadedAt(zach, amy, cache), index, [zach, amy], ["name"], (f, v) => v);
      && p.outcome == Done
      && p.states[zach] == Refreshed(Listing(1, "Zach", "1245 Foo Ln"))
      && p.states[amy] == Refreshed(Listing(2, "Amy", "7 Elm St"))
  {
    var states := LoadedAt(zach, amy, cache);
    var instances := [zach, amy];
    var coerce: Coercion := (f, v) => v;
    assert "Zach" != "Amy" by { assert "Zach"[0] != "Amy"[0]; }
    InstanceKeySingle(states[zach].attrs, "name", coerce);
    InstanceKeySingle(states[amy].attrs, "name", coerce);
    var states1 := states[zach := Refreshed(index[[Text("Zach")]])];
    var index1 := index - {[Text("Zach")]};
    assert Reconcile(states, index, instances, ["name"], coerce) == Reconcile(states1, index1, [amy], ["name"], coerce) by {
      assert instances[1..] == [amy];
    }
    assert states1[amy] == states[amy];
    assert [Text("Amy")] in index1;
    assert Reconcile(states1, index1, [amy], ["name"], coerce)
        == Pass(states1[amy := Refreshed(index1[[Text("Amy")]])], index1 - {[Text("Amy")]}, Done);
  }

  /**
   A miss: synchronizing the renamed posts on `name`. No row is named "Zach"
   any more, so the first post stays stale with its caches; the second post
   is matched by name.
   */
  lemma StaleByOldName(zach: Record, amy: Record, cache: Cache)
    requires zach != amy
    ensures var run := SyncSpec(Loaded(zach, amy, cache), [zach, amy], ["name"], {"id", "name"}, (f, v) => v, Renamed);
      && run.outcome == Done
      && run.states[zach] == RecState(Post(1, "Zach"), cache, cache)
      && run.states[amy] == RecState(Post(2, "Amy"), map[], map[])
  {
    var states := Loaded(zach, amy, cache);
    var instances := [zach, amy];
    var rows := [Post(1, "Zachary"), Post(2, "Amy")];
    var coerce: Coercion := (f, v) => v;
    var index := Fold(rows, ["name"], coerce);
    assert "Zachary" != "Amy" && "Zach" != "Zachary" && "Zach" != "Amy" by {
      assert "Zachary"[0] != "Amy"[0] && |"Zach"| != |"Zachary"| && "Zach"[0] != "Amy"[0];
    }
    FoldTwo(rows, "name");
    InstanceKeySingle(Post(1, "Zach"), "name", coerce);
    InstanceKeySingle(Post(2, "Amy"), "name", coerce);
    KeyedIffKeyValues(states, instances, ["name"], coerce);
    assert KeyValues(Views(states, instances), ["name"], coerce).Ok?;
    assert BuildIndex(rows, ["name"], {"id", "name"}, coerce) == Ok(index);
    assert [Text("Zach")] !in index;
    assert Reconcile(states, index, instances, ["name"], coerce) == Reconcile(states, index, [amy], ["name"], coerce) by {
      assert instances[1..] == [amy];
    }
    assert Reconcile(states, index, [amy], ["name"], coerce)
        == Pass(states[amy := Refreshed(rows[1])], index - {[Text("Amy")]}, Done);
  }

  /** A column type cast that reads a one-digit text as that number. */
  function DigitCast(f: Field, v: Value): (w: Value)
  {
    if v.Text? && |v.s| == 1 && '0' <= v.s[0] <= '9' then Int(v.s[0] as int - '0' as int) else v
  }

  /**
   Both sides of the lookup are cast: an instance storing the text "1" for
   `id` reads as the number 1 through its reader, as does the row's raw "1",
   so the instance is matched and refreshed.
   */
  lemma CastKeysMatch(post: Record, cache: Cache)
    ensures var stored := map["id" := Text("1")];
      var current := map["id" := Text("1"), "name" := Text("Zachary")];
      var run := SyncSpec(map[post := RecState(stored, cache, cache)], [post], ["id"], {"id", "name"}, DigitCast,
                          q => Some([current]));
      && run.outcome == Done
      && run.states[post] == RecState(current, map[], map[])
  {
    var stored := map["id" := Text("1")];
    var current := map["id" := Text("1"), "name" := Text("Zachary")];
    var states := map[post := RecState(stored, cache, cache)];
    var instances := [post];
    var rows := [current];
    assert DigitCast("id", Text("1")) == Int(1);
    InstanceKeySingle(stored, "id", DigitCast);
    KeyedIffKeyValues(states, instances, ["id"], DigitCast);
    var t := RowKey(current, ["id"], DigitCast);
    assert |t| == 1 && t[0] == DigitCast("id", Raw(current, "id")) == Int(1);
    assert t == [Int(1)];
    assert rows[..0] == [] && rows[0] == current;
    assert Fold(rows[..0], ["id"], DigitCast) == map[];
    var index := Fold(rows, ["id"], DigitCast);
    assert index == map[[Int(1)] := current];
    assert BuildIndex(rows, ["id"], {"id", "name"}, DigitCast) == Ok(index);
    assert instances[1..] == [];
    assert Reconcile(states, index, instances, ["id"], DigitCast)
        == Pass(states[post := Refreshed(current)], index - {[Int(1)]}, Done);
  }
}
