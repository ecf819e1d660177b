/**
 * The schema inspector (`get_schema_info` in app/db.py).
 *
 * The catalog query returns rows (table_name, column_name, data_type); the
 * function folds them, in the order the database returns them, into a
 * dictionary from table name to the list of (column_name, data_type) pairs
 * of that table, with `schema.setdefault(table, []).append(column)`. The
 * query itself is database I/O and is not modelled: its result is the input
 * sequence `rows`. A Python dictionary remembers the order in which its keys
 * were first inserted, and that order shows when the dictionary is written
 * into the prompt, so the model keeps it beside the map.
 */
module SchemaInspector {

  /** One row of the catalog query. */
  datatype CatalogRow = CatalogRow(tableName: string, columnName: string, dataType: string)

  /** One entry of a table's list: (column_name, data_type). */
  type Column = (string, string)

  /** A Python dictionary from table name to its list of columns: the
      entries, and the keys in insertion order. */
  datatype Dict = Dict(order: seq<string>, entries: map<string, seq<Column>>)

  /** The pair a row contributes to its table's list. */
  function ColumnOf(row: CatalogRow): Column {
    (row.columnName, row.dataType)
  }

  /** No key is listed twice. */
  predicate Distinct(s: seq<string>) {
    forall i, j | 0 <= i < j < |s| :: s[i] != s[j]
  }

  /** The insertion order lists each key of the dictionary exactly once. */
  predicate Valid(d: Dict) {
    && Distinct(d.order)
    && (forall k | k in d.order :: k in d.entries)
    && (forall k | k in d.entries :: k in d.order)
  }

  /** `d.get(t, [])`: the list of table `t`, empty when it has no entry. */
  function Lookup(d: Dict, t: string): seq<Column> {
    if t in d.entries then d.entries[t] else []
  }

  /** `d.setdefault(t, []).append(c)`: `t` gets an entry, inserted last in
      the order if it is new, and `c` is appended to its list; every other
      table keeps its entry and the order of the old keys is unchanged. */
  function SetDefaultAppend(d: Dict, t: string, c: Column): (r: Dict)
    requires Valid(d)
    ensures Valid(r)
    ensures r.entries.Keys == d.entries.Keys + {t}
    ensures r.order == if t in d.entries then d.order else d.order + [t]
    ensures Lookup(r, t) == Lookup(d, t) + [c]
    ensures forall k | k != t :: Lookup(r, k) == Lookup(d, k)
  {
    var d1 := if t in d.entries then d else Dict(d.order + [t], d.entries[t := []]);
    Dict(d1.order, d1.entries[t := d1.entries[t] + [c]])
  }

  // ---------------------------------------------------------------------------
  // Specification: the dictionary after the loop, and reference definitions
  // ---------------------------------------------------------------------------

  /** The dictionary the loop has built after the given rows. */
  function Group(rows: seq<CatalogRow>): (r: Dict)
    ensures Valid(r)
    ensures forall t | t in r.entries :: r.entries[t] != []
    decreases |rows|
  {
    if rows == [] then Dict([], map[])
    else
      var last := rows[|rows| - 1];
      SetDefaultAppend(Group(rows[..|rows| - 1]), last.tableName, ColumnOf(last))
  }

  /** The table names that occur in the rows. */
  function TableNames(rows: seq<CatalogRow>): set<string> {
    set r | r in rows :: r.tableName
  }

  /** The columns of table `t`, in row order, duplicates included. */
  function ColumnsOf(rows: seq<CatalogRow>, t: string): seq<Column>
    decreases |rows|
  {
    if rows == [] then []
    else (if rows[0].tableName == t then [ColumnOf(rows[0])] else []) + ColumnsOf(rows[1..], t)
  }

  /** The index of the first row of table `t`. */
  function FirstIndex(rows: seq<CatalogRow>, t: string): (i: nat)
    requires t in TableNames(rows)
    ensures i < |rows| && rows[i].tableName == t
    ensures forall j | 0 <= j < i :: rows[j].tableName != t
    decreases |rows|
  {
    if rows[0].tableName == t then 0
    else
      assert t in TableNames(rows[1..]) by {
        var r :| r in rows && r.tableName == t;
        var k :| 0 <= k < |rows| && rows[k] == r;
        assert rows[1..][k - 1] == r;
      }
      1 + FirstIndex(rows[1..], t)
  }

  /** The number of columns in all lists, summed over the keys `keys`. */
  function TotalColumns(entries: map<string, seq<Column>>, keys: seq<string>): nat
    requires forall k | k in keys :: k in entries
    decreases |keys|
  {
    if keys == [] then 0 else |entries[keys[0]]| + TotalColumns(entries, keys[1..])
  }

  // ---------------------------------------------------------------------------
  // get_schema_info
  // ---------------------------------------------------------------------------

  /** The grouping loop of `get_schema_info` over the rows of the catalog
      query: one `setdefault(...).append(...)` per row, in row order. */
  method GetSchemaInfo(rows: seq<CatalogRow>) returns (schema: Dict)
    ensures schema == Group(rows)
    ensures schema.entries.Keys == TableNames(rows)
    ensures forall t :: Lookup(schema, t) == ColumnsOf(rows, t)
  {
    schema := Dict([], map[]);
    var i := 0;
    while i < |rows|
      invariant i <= |rows|
      invariant schema == Group(rows[..i])
    {
      var row := rows[i];
      var t := row.tableName;
      if t !in schema.entries {
        schema := Dict(schema.order + [t], schema.entries[t := []]);
      }
      schema := Dict(schema.order, schema.entries[t := schema.entries[t] + [ColumnOf(row)]]);
      assert rows[..i + 1][..i] == rows[..i];
      i := i + 1;
    }
    assert rows[..i] == rows;
    GroupKeys(rows);
    GroupColumns(rows);
  }

  // ---------------------------------------------------------------------------
  // Lemmas
  // ---------------------------------------------------------------------------

  /** Table names of rows with one more row at the end. */
  lemma TableNamesSnoc(p: seq<CatalogRow>, x: CatalogRow)
    ensures TableNames(p + [x]) == TableNames(p) + {x.tableName}
  {
  }

  /** Columns of table `t` with one more row at the end. */
  lemma {:induction false} ColumnsOfSnoc(p: seq<CatalogRow>, x: CatalogRow, t: string)
    ensures ColumnsOf(p + [x], t) == ColumnsOf(p, t) + (if x.tableName == t then [ColumnOf(x)] else [])
    decreases |p|
  {
    var last := if x.tableName == t then [ColumnOf(x)] else [];
    if p == [] {
      assert [] + [x] == [x] && [x][1..] == [];
    } else {
      var head := if p[0].tableName == t then [ColumnOf(p[0])] else [];
      assert (p + [x])[0] == p[0] && (p + [x])[1..] == p[1..] + [x];
      ColumnsOfSnoc(p[1..], x, t);
      calc {
        ColumnsOf(p + [x], t);
        head + ColumnsOf(p[1..] + [x], t);
        head + (ColumnsOf(p[1..], t) + last);
        (head + ColumnsOf(p[1..], t)) + last;
        ColumnsOf(p, t) + last;
      }
    }
  }

  /** First row of table `t` with one more row at the end. */
  lemma FirstIndexSnoc(p: seq<CatalogRow>, x: CatalogRow, t: string)
    requires t in TableNames(p + [x])
    ensures t in TableNames(p) ==> FirstIndex(p + [x], t) == FirstIndex(p, t)
    ensures t !in TableNames(p) ==> FirstIndex(p + [x], t) == |p|
  {
    TableNamesSnoc(p, x);
    var i := FirstIndex(p + [x], t);
    if t in TableNames(p) {
      var j := FirstIndex(p, t);
      assert (p + [x])[j] == p[j];
      assert i <= j;
      assert p[i] == (p + [x])[i];
    } else {
      forall k | 0 <= k < |p|
        ensures (p + [x])[k].tableName != t
      {
        assert (p + [x])[k] == p[k] && p[k] in p;
      }
      assert (p + [x])[|p|] == x;
    }
  }

  /** The keys of the dictionary are exactly the table names in the rows;
      in particular no rows give the empty dictionary. */
  lemma {:induction false} GroupKeys(rows: seq<CatalogRow>)
    ensures Group(rows).entries.Keys == TableNames(rows)
    decreases |rows|
  {
    if rows != [] {
      var p := rows[..|rows| - 1];
      var x := rows[|rows| - 1];
      assert rows == p + [x];
      GroupKeys(p);
      TableNamesSnoc(p, x);
    }
  }

  /** Each table's list holds the columns of that table's rows, in row order,
      duplicates included; a table without rows has no list. */
  lemma {:induction false} GroupColumns(rows: seq<CatalogRow>)
    ensures forall t :: Lookup(Group(rows), t) == ColumnsOf(rows, t)
    decreases |rows|
  {
    if rows != [] {
      var p := rows[..|rows| - 1];
      var x := rows[|rows| - 1];
      assert rows == p + [x];
      GroupColumns(p);
      var d := Group(p);
      var r := Group(rows);
      assert r == SetDefaultAppend(d, x.tableName, ColumnOf(x));
      forall t
        ensures Lookup(r, t) == ColumnsOf(rows, t)
      {
        ColumnsOfSnoc(p, x, t);
        if t == x.tableName {
          assert Lookup(r, t) == Lookup(d, t) + [ColumnOf(x)];
        } else {
          assert Lookup(r, t) == Lookup(d, t);
        }
      }
    }
  }

  /** The keys in `order` are table names of the rows, listed in the order
      in which their tables first occur. */
  predicate FirstOccurrenceOrder(rows: seq<CatalogRow>, order: seq<string>) {
    && (forall k | k in order :: k in TableNames(rows))
    && (forall i, j | 0 <= i < j < |order| ::
          assert order[i] in order && order[j] in order;
          FirstIndex(rows, order[i]) < FirstIndex(rows, order[j]))
  }

  /** A further row does not disturb the order of the tables seen so far. */
  lemma FirstOccurrenceOrderSnoc(p: seq<CatalogRow>, x: CatalogRow, order: seq<string>)
    requires FirstOccurrenceOrder(p, order)
    ensures FirstOccurrenceOrder(p + [x], order)
  {
    TableNamesSnoc(p, x);
    forall k | k in order
      ensures FirstIndex(p + [x], k) == FirstIndex(p, k)
    {
      FirstIndexSnoc(p, x, k);
    }
  }

  /** A further row of a new table puts that table after all others. */
  lemma FirstOccurrenceOrderNew(p: seq<CatalogRow>, x: CatalogRow, order: seq<string>)
    requires FirstOccurrenceOrder(p, order)
    requires x.tableName !in TableNames(p)
    ensures FirstOccurrenceOrder(p + [x], order + [x.tableName])
  {
    var t := x.tableName;
    var after := order + [t];
    TableNamesSnoc(p, x);
    FirstOccurrenceOrderSnoc(p, x, order);
    FirstIndexSnoc(p, x, t);
    forall i, j | 0 <= i < j < |after|
      ensures FirstIndex(p + [x], after[i]) < FirstIndex(p + [x], after[j])
    {
      assert after[i] == order[i];
      if j < |order| {
        assert after[j] == order[j];
      } else {
        assert order[i] in order;
      }
    }
  }

  /** Keys are inserted in the order in which their tables first occur in
      the rows. */
  lemma {:induction false} GroupOrder(rows: seq<CatalogRow>)
    ensures FirstOccurrenceOrder(rows, Group(rows).order)
    decreases |rows|
  {
    if rows != [] {
      var p := rows[..|rows| - 1];
      var x := rows[|rows| - 1];
      assert rows == p + [x];
      GroupOrder(p);
      GroupKeys(p);
      if x.tableName in Group(p).entries {
        FirstOccurrenceOrderSnoc(p, x, Group(p).order);
      } else {
        FirstOccurrenceOrderNew(p, x, Group(p).order);
      }
    }
  }

  /** Summing over the keys after a change to one list changes the sum by
      that list's change in length. */
  lemma {:induction false} TotalColumnsUpdate(e: map<string, seq<Column>>, e': map<string, seq<Column>>, keys: seq<string>, t: string)
    requires Distinct(keys)
    requires forall k | k in keys :: k in e && k in e'
    requires forall k | k in keys && k != t :: e'[k] == e[k]
    ensures TotalColumns(e', keys) == TotalColumns(e, keys) + (if t in keys then |e'[t]| - |e[t]| else 0)
    decreases |keys|
  {
    if keys != [] {
      assert Distinct(keys[1..]) by {
        forall i, j | 0 <= i < j < |keys| - 1 ensures keys[1..][i] != keys[1..][j] {
          assert keys[1..][i] == keys[i + 1] && keys[1..][j] == keys[j + 1];
        }
      }
      TotalColumnsUpdate(e, e', keys[1..], t);
      if keys[0] == t {
        assert t !in keys[1..] by {
          forall j | 0 <= j < |keys| - 1 ensures keys[1..][j] != t {
            assert keys[1..][j] == keys[j + 1];
          }
        }
      }
    }
  }

  /** Summing over the keys with one more key at the end. */
  lemma {:induction false} TotalColumnsSnoc(e: map<string, seq<Column>>, keys: seq<string>, t: string)
    requires forall k | k in keys + [t] :: k in e
    ensures TotalColumns(e, keys + [t]) == TotalColumns(e, keys) + |e[t]|
    decreases |keys|
  {
    if keys == [] {
      assert [] + [t] == [t];
      assert [t][1..] == [];
    } else {
      assert (keys + [t])[1..] == keys[1..] + [t];
      TotalColumnsSnoc(e, keys[1..], t);
    }
  }

  /** Nothing is lost or duplicated: the lists hold as many columns in all
      as there are rows. */
  lemma {:induction false} GroupTotal(rows: seq<CatalogRow>)
    ensures TotalColumns(Group(rows).entries, Group(rows).order) == |rows|
    decreases |rows|
  {
    if rows != [] {
      var p := rows[..|rows| - 1];
      var x := rows[|rows| - 1];
      var t := x.tableName;
      GroupTotal(p);
      var d := Group(p);
      var r := Group(rows);
      assert r == SetDefaultAppend(d, t, ColumnOf(x));
      if t in d.entries {
        TotalColumnsUpdate(d.entries, r.entries, d.order, t);
      } else {
        TotalColumnsUpdate(d.entries, r.entries, d.order, t);
        TotalColumnsSnoc(r.entries, d.order, t);
      }
    }
  }
}
