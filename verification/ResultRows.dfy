/** internal/schema/rows.go: rows of cells become objects under the column keys. */
module ResultRows {
  import opened Wrappers
  import opened GoStrings
  import opened ColumnKeys

  /** A cell as JSON decodes it, without nesting. */
  datatype Cell = Null | Bool(b: bool) | Number(n: int) | Text(s: Bytes)

  type Row = seq<Cell>
  type RowObject = map<Bytes, Cell>

  datatype ColumnMeta = ColumnMeta(name: Bytes, key: Bytes)

  datatype Result = Result(rows: seq<RowObject>, rowCount: nat, runningMs: int, columns: seq<ColumnMeta>)

  /** Cells stored under the keys from left to right; a key used again takes the later cell. */
  function ToObject(keys: seq<Bytes>, row: Row): RowObject {
    if keys == [] then map[]
    else
      var last := |keys| - 1;
      var m := ToObject(keys[..last], row);
      if last < |row| then m[keys[last] := row[last]] else m
  }

  lemma ToObjectStep(keys: seq<Bytes>, row: Row, j: nat)
    requires j < |keys|
    ensures ToObject(keys[..j + 1], row)
      == if j < |row| then ToObject(keys[..j], row)[keys[j] := row[j]] else ToObject(keys[..j], row)
  {
    assert keys[..j + 1][..j] == keys[..j];
  }

  lemma ToObjectOfAll(keys: seq<Bytes>, row: Row)
    ensures ToObject(keys[..0], row) == map[]
    ensures ToObject(keys[..|keys|], row) == ToObject(keys, row)
  {
    assert keys[..|keys|] == keys;
  }

  method Rows(names: seq<Bytes>, raw: seq<Row>, runningMs: int) returns (res: Result)
    ensures |res.rows| == |raw| == res.rowCount && res.runningMs == runningMs
    ensures forall i | 0 <= i < |raw| :: res.rows[i] == ToObject(Keys(names), raw[i])
    ensures |res.columns| == |names|
    ensures forall i | 0 <= i < |names| :: res.columns[i] == ColumnMeta(names[i], Keys(names)[i])
  {
    hide ToObject, Keys;
    var keys := Uniquify(names);
    var out := new RowObject[|raw|](_ => map[]);
    for i := 0 to |raw|
      invariant forall r | 0 <= r < i :: out[r] == ToObject(keys, raw[r])
    {
      var m: RowObject := map[];
      ToObjectOfAll(keys, raw[i]);
      for j := 0 to |keys|
        invariant m == ToObject(keys[..j], raw[i])
        invariant forall r | 0 <= r < i :: out[r] == ToObject(keys, raw[r])
      {
        ToObjectStep(keys, raw[i], j);
        if j < |raw[i]| {
          m := m[keys[j] := raw[i][j]];
        }
      }
      out[i] := m;
    }
    var columns := seq(|names|, i requires 0 <= i < |names| => ColumnMeta(names[i], keys[i]));
    res := Result(out[..], |raw|, runningMs, columns);
  }

  // ----- reading a row back -----

  /** What a client finds under each column's key. */
  function ReadBack(keys: seq<Bytes>, obj: RowObject): seq<Option<Cell>> {
    seq(|keys|, j requires 0 <= j < |keys| => if keys[j] in obj then Some(obj[keys[j]]) else None)
  }

  /** The cells that the row has for the columns; a null cell is not a missing one. */
  function Cells(columns: nat, row: Row): seq<Option<Cell>> {
    seq(columns, j requires 0 <= j < columns => if j < |row| then Some(row[j]) else None)
  }

  /** The object has no other keys than those of the columns for which the row has a cell. */
  lemma {:induction false} ObjectKeys(keys: seq<Bytes>, row: Row, k: Bytes)
    ensures k in ToObject(keys, row) <==> exists j :: 0 <= j < |keys| && j < |row| && keys[j] == k
  {
    if keys != [] {
      var last := |keys| - 1;
      ObjectKeys(keys[..last], row, k);
      if k in ToObject(keys[..last], row) {
        var j :| 0 <= j < last && j < |row| && keys[..last][j] == k;
        assert keys[j] == k;
      }
    }
  }

  /** Under a key stands the cell of the last column with that key for which the row has a cell. */
  lemma {:induction false} LastCellWins(keys: seq<Bytes>, row: Row, j: nat)
    requires j < |keys| && j < |row|
    requires forall i | j < i < |keys| && i < |row| :: keys[i] != keys[j]
    ensures keys[j] in ToObject(keys, row) && ToObject(keys, row)[keys[j]] == row[j]
  {
    var last := |keys| - 1;
    if j < last {
      LastCellWins(keys[..last], row, j);
    }
  }

  lemma {:induction false} CellUnderItsKey(keys: seq<Bytes>, row: Row, j: nat)
    requires Distinct(keys)
    requires j < |keys|
    ensures j < |row| ==> keys[j] in ToObject(keys, row) && ToObject(keys, row)[keys[j]] == row[j]
    ensures j >= |row| ==> keys[j] !in ToObject(keys, row)
  {
    ObjectKeys(keys, row, keys[j]);
    var last := |keys| - 1;
    if j < last {
      CellUnderItsKey(keys[..last], row, j);
    }
  }

  lemma DistinctKeysReadBack(keys: seq<Bytes>, row: Row)
    requires Distinct(keys)
    ensures ReadBack(keys, ToObject(keys, row)) == Cells(|keys|, row)
  {
    forall j | 0 <= j < |keys|
      ensures ReadBack(keys, ToObject(keys, row))[j] == Cells(|keys|, row)[j]
    {
      CellUnderItsKey(keys, row, j);
    }
  }

  lemma EqualKeysLoseACell(keys: seq<Bytes>) returns (row: Row)
    requires !Distinct(keys)
    ensures |row| == |keys|
    ensures ReadBack(keys, ToObject(keys, row)) != Cells(|keys|, row)
  {
    var i, j :| 0 <= i < j < |keys| && keys[i] == keys[j];
    row := seq(|keys|, k => if k == j then Bool(true) else Null);
    var back := ReadBack(keys, ToObject(keys, row));
    assert back[i] == back[j];
    assert Cells(|keys|, row)[i] != Cells(|keys|, row)[j];
  }

  /** Every row can be read back in full exactly when no column is named like a generated key. */
  lemma ConversionLosslessIff(names: seq<Bytes>)
    ensures var keys := Keys(names);
      (forall row :: ReadBack(keys, ToObject(keys, row)) == Cells(|keys|, row)) <==> !SuffixTaken(names)
  {
    var keys := Keys(names);
    KeysDistinctIff(names);
    if Distinct(keys) {
      forall row
        ensures ReadBack(keys, ToObject(keys, row)) == Cells(|keys|, row)
      {
        DistinctKeysReadBack(keys, row);
      }
    } else {
      var row := EqualKeysLoseACell(keys);
    }
  }
}
