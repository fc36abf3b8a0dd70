/**
 * `row2Key` and `row2Value`: how a row image becomes a store key and a
 * JSON document, and the exceptions batch processing can throw.
 */
module Projection {
  import opened Wrappers
  import opened CanalProtocol

  /** The column whose value is the store key. */
  const KeyColumn: string := "id"

  /** The exceptions that abort `processEntries`. */
  datatype Error =
    | ParseError(entry: Entry)       // `parseFrom` threw; wrapped with the entry
    | KeyColumnNotFound              // no column named like the key column
    | DuplicateKey(name: string)     // `Collectors.toMap` met `name` a second time

  /**
   * The JSON object written to the store, as a name-to-value map. Field order
   * of the rendered text follows hash iteration and is not modelled.
   */
  type Document = map<string, string>

  predicate HasColumn(columns: seq<Column>, name: string)
  {
    exists i :: 0 <= i < |columns| && columns[i].name == name
  }

  /** Some column called `name` has value `value`. */
  predicate IsValueOf(columns: seq<Column>, name: string, value: string)
  {
    exists i :: 0 <= i < |columns| && columns[i].name == name && columns[i].value == value
  }

  predicate HasDuplicateNames(columns: seq<Column>)
  {
    exists i, j :: 0 <= i < j < |columns| && columns[i].name == columns[j].name
  }

  function ColumnNames(columns: seq<Column>): set<string>
  {
    set i | 0 <= i < |columns| :: columns[i].name
  }

  /**
   * `row2Key`: the value of a column whose name equals `keyColumn` exactly
   * (`findAny`, here the first one), or the "Key column not found" exception.
   * The UTF-8 encoding of the value is taken as the identity.
   */
  function RowToKey(keyColumn: string, columns: seq<Column>): (r: Result<string, Error>)
    ensures r.Ok? <==> HasColumn(columns, keyColumn)
    ensures r.Err? ==> r.error == KeyColumnNotFound
    ensures r.Ok? ==> IsValueOf(columns, keyColumn, r.value)
  {
    if |columns| == 0 then Err(KeyColumnNotFound)
    else if columns[0].name == keyColumn then Ok(columns[0].value)
    else
      var r := RowToKey(keyColumn, columns[1..]);
      assert HasColumn(columns, keyColumn) ==> HasColumn(columns[1..], keyColumn) by {
        if HasColumn(columns, keyColumn) {
          var i :| 0 <= i < |columns| && columns[i].name == keyColumn;
          assert columns[1..][i - 1].name == keyColumn;
        }
      }
      assert r.Ok? ==> IsValueOf(columns, keyColumn, r.value) by {
        if r.Ok? {
          var i :| 0 <= i < |columns[1..]| && columns[1..][i].name == keyColumn && columns[1..][i].value == r.value;
          assert columns[i + 1] == columns[1..][i];
        }
      }
      r
  }

  /**
   * `row2Value`: `Collectors.toMap(getName, getValue)` over the columns in
   * order. It has no merge function, so the first column whose name was
   * already collected throws; otherwise the map holds every column.
   */
  function RowToValue(columns: seq<Column>): (r: Result<Document, Error>)
    ensures r.Err? <==> HasDuplicateNames(columns)
    ensures r.Err? ==> r.error.DuplicateKey?
    ensures r.Err? ==> exists i, j :: 0 <= i < j < |columns| && columns[i].name == r.error.name && columns[j].name == r.error.name
    ensures r.Ok? ==> r.value.Keys == ColumnNames(columns)
    ensures r.Ok? ==> forall i :: 0 <= i < |columns| ==> r.value[columns[i].name] == columns[i].value
  {
    if |columns| == 0 then Ok(map[])
    else
      var init, last := columns[..|columns| - 1], columns[|columns| - 1];
      assert columns == init + [last];
      DuplicatesOfAppend(init, last);
      match RowToValue(init)
      case Err(e) =>
        assert forall i :: 0 <= i < |init| ==> init[i] == columns[i];
        Err(e)
      case Ok(m) =>
        if last.name in m then
          Err(DuplicateKey(last.name))
        else
          var r := m[last.name := last.value];
          assert forall i :: 0 <= i < |columns| ==> r[columns[i].name] == columns[i].value by {
            forall i | 0 <= i < |columns| ensures r[columns[i].name] == columns[i].value {
              if i < |init| {
                assert columns[i] == init[i];
              }
            }
          }
          Ok(r)
  }

  /** A column appended to a row image duplicates a name exactly when its own name was already there. */
  lemma DuplicatesOfAppend(init: seq<Column>, last: Column)
    ensures HasDuplicateNames(init + [last]) <==> HasDuplicateNames(init) || last.name in ColumnNames(init)
    ensures ColumnNames(init + [last]) == ColumnNames(init) + {last.name}
    ensures last.name in ColumnNames(init) ==> exists i :: 0 <= i < |init| && init[i].name == last.name
  {
    var cs := init + [last];
    assert forall i :: 0 <= i < |init| ==> cs[i] == init[i];
    if last.name in ColumnNames(init) {
      var i :| 0 <= i < |init| && init[i].name == last.name;
      assert cs[i].name == cs[|init|].name;
    }
    if HasDuplicateNames(cs) && !HasDuplicateNames(init) {
      var i, j :| 0 <= i < j < |cs| && cs[i].name == cs[j].name;
      assert j == |init|;
      assert init[i].name == last.name;
    }
    assert ColumnNames(cs) == ColumnNames(init) + {last.name} by {
      assert cs[|init|] == last;
    }
  }
}
