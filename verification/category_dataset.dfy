/** An abstract category dataset: ordered row keys (bar names), ordered column keys
    (category names) and one optional value per (row, column) cell, plus the data tuple
    associated with a cell and the "categories have different statistics" flag.
    Keys keep their insertion order; a missing cell reads as Java's `null`. */
module CategoryDataset {
  import opened Outcomes

  type Key = string

  /** The (data set, type, field) a cell's value came from. */
  datatype DataTuple = DataTuple(dataSet: nat, typeId: string, field: string)

  datatype Dataset = Dataset(
    rowKeys: seq<Key>,
    columnKeys: seq<Key>,
    cells: seq<seq<Option<real>>>,            // cells[row][column]
    tuples: map<(Key, Key), DataTuple>,       // keyed by (row, column)
    differentStats: bool)

  predicate Distinct<T(==)>(s: seq<T>)
  {
    forall i, j :: 0 <= i < j < |s| ==> s[i] != s[j]
  }

  /** Keys are unique and the cell matrix has one row per row key and one column per
      column key. */
  predicate Valid(ds: Dataset)
  {
    && Distinct(ds.rowKeys)
    && Distinct(ds.columnKeys)
    && |ds.cells| == |ds.rowKeys|
    && forall j :: 0 <= j < |ds.cells| ==> |ds.cells[j]| == |ds.columnKeys|
  }

  /** A freshly constructed dataset. */
  const Empty: Dataset := Dataset([], [], [], map[], false)

  /** Every cell holds a value. */
  predicate Full(ds: Dataset)
    requires Valid(ds)
  {
    forall j, i :: 0 <= j < |ds.rowKeys| && 0 <= i < |ds.columnKeys| ==> ds.cells[j][i].Some?
  }

  /** Position of `x` in a sequence that holds it. */
  function IndexOf<T(==)>(s: seq<T>, x: T): (k: nat)
    requires x in s
    ensures k < |s| && s[k] == x
    ensures forall i :: 0 <= i < k ==> s[i] != x
  {
    if s[0] == x then 0 else 1 + IndexOf(s[1..], x)
  }

  lemma IndexOfDistinct<T>(s: seq<T>, k: nat)
    requires Distinct(s) && k < |s|
    ensures IndexOf(s, s[k]) == k
  {
  }

  lemma IndexOfAppend<T>(s: seq<T>, x: T, y: T)
    requires y in s
    ensures IndexOf(s + [x], y) == IndexOf(s, y)
  {
    var t := s + [x];
    var k := IndexOf(s, y);
    assert t[k] == y;
    assert forall i :: 0 <= i < k ==> t[i] != y;
  }

  /** The value stored under (row key, column key), or `None` when either key is absent
      or the cell is empty: `getValue(rowKey, columnKey)`. */
  function Get(ds: Dataset, row: Key, column: Key): (r: Option<real>)
    requires Valid(ds)
    ensures r.Some? ==> row in ds.rowKeys && column in ds.columnKeys
  {
    if row in ds.rowKeys && column in ds.columnKeys
    then ds.cells[IndexOf(ds.rowKeys, row)][IndexOf(ds.columnKeys, column)]
    else None
  }

  /** Reading by keys agrees with reading by position (`getValue(row, column)` with
      indices): the keys are distinct, so the key at a position leads back to it. */
  lemma GetAt(ds: Dataset, j: nat, i: nat)
    requires Valid(ds) && j < |ds.rowKeys| && i < |ds.columnKeys|
    ensures Get(ds, ds.rowKeys[j], ds.columnKeys[i]) == ds.cells[j][i]
  {
    IndexOfDistinct(ds.rowKeys, j);
    IndexOfDistinct(ds.columnKeys, i);
  }

  /** Values depend only on the keys and the cells, not on tuples or the flag. */
  lemma GetIgnoresBookkeeping(ds: Dataset, ds': Dataset)
    requires Valid(ds)
    requires ds'.rowKeys == ds.rowKeys && ds'.columnKeys == ds.columnKeys && ds'.cells == ds.cells
    ensures Valid(ds')
    ensures forall a, b :: Get(ds', a, b) == Get(ds, a, b)
  {
  }

  /** Appends `row` as a new, empty row unless it is already a row key. No stored value
      changes. */
  function AddRowKey(ds: Dataset, row: Key): (r: Dataset)
    requires Valid(ds)
    ensures Valid(r) && row in r.rowKeys
    ensures r.rowKeys == ds.rowKeys + (if row in ds.rowKeys then [] else [row])
    ensures r.columnKeys == ds.columnKeys
    ensures forall a, b :: Get(r, a, b) == Get(ds, a, b)
    ensures r.tuples == ds.tuples && r.differentStats == ds.differentStats
  {
    if row in ds.rowKeys then ds
    else
      var r := ds.(rowKeys := ds.rowKeys + [row],
                   cells := ds.cells + [seq(|ds.columnKeys|, _ => None)]);
      forall a, b ensures Get(r, a, b) == Get(ds, a, b) {
        if a in ds.rowKeys { IndexOfAppend(ds.rowKeys, row, a); }
      }
      r
  }

  /** Appends `column` as a new, empty column unless it is already a column key. No
      stored value changes. */
  function AddColumnKey(ds: Dataset, column: Key): (r: Dataset)
    requires Valid(ds)
    ensures Valid(r) && column in r.columnKeys
    ensures r.columnKeys == ds.columnKeys + (if column in ds.columnKeys then [] else [column])
    ensures r.rowKeys == ds.rowKeys
    ensures forall a, b :: Get(r, a, b) == Get(ds, a, b)
    ensures r.tuples == ds.tuples && r.differentStats == ds.differentStats
  {
    if column in ds.columnKeys then ds
    else
      var r := ds.(columnKeys := ds.columnKeys + [column],
                   cells := seq(|ds.cells|, j requires 0 <= j < |ds.cells| => ds.cells[j] + [None]));
      forall a, b ensures Get(r, a, b) == Get(ds, a, b) {
        if b in ds.columnKeys { IndexOfAppend(ds.columnKeys, column, b); }
      }
      r
  }

  /** Stores `v` in the cell of two existing keys; every other cell keeps its value. */
  function PutValue(ds: Dataset, v: real, row: Key, column: Key): (r: Dataset)
    requires Valid(ds) && row in ds.rowKeys && column in ds.columnKeys
    ensures Valid(r)
    ensures r.rowKeys == ds.rowKeys && r.columnKeys == ds.columnKeys
    ensures Get(r, row, column) == Some(v)
    ensures forall a, b :: (a, b) != (row, column) ==> Get(r, a, b) == Get(ds, a, b)
    ensures r.tuples == ds.tuples && r.differentStats == ds.differentStats
  {
    var j := IndexOf(ds.rowKeys, row);
    var i := IndexOf(ds.columnKeys, column);
    var r := ds.(cells := ds.cells[j := ds.cells[j][i := Some(v)]]);
    forall a, b | (a, b) != (row, column) && a in ds.rowKeys && b in ds.columnKeys
      ensures Get(r, a, b) == Get(ds, a, b)
    {
      IndexOfDistinct(ds.rowKeys, IndexOf(ds.rowKeys, a));
      IndexOfDistinct(ds.columnKeys, IndexOf(ds.columnKeys, b));
    }
    r
  }

  /** `addValue(value, rowKey, columnKey)`: appends an unknown row key and an unknown
      column key, then stores the value in their cell. */
  function AddValue(ds: Dataset, v: real, row: Key, column: Key): (r: Dataset)
    requires Valid(ds)
    ensures Valid(r)
    ensures r.rowKeys == ds.rowKeys + (if row in ds.rowKeys then [] else [row])
    ensures r.columnKeys == ds.columnKeys + (if column in ds.columnKeys then [] else [column])
    ensures Get(r, row, column) == Some(v)
    ensures forall a, b :: (a, b) != (row, column) ==> Get(r, a, b) == Get(ds, a, b)
    ensures r.tuples == ds.tuples && r.differentStats == ds.differentStats
  {
    PutValue(AddColumnKey(AddRowKey(ds, row), column), v, row, column)
  }

  /** `associateTuple(rowKey, columnKey, tuple)`. */
  function AssociateTuple(ds: Dataset, row: Key, column: Key, t: DataTuple): (r: Dataset)
    ensures r.tuples.Keys == ds.tuples.Keys + {(row, column)} && r.tuples[(row, column)] == t
    ensures forall k :: k in ds.tuples && k != (row, column) ==> r.tuples[k] == ds.tuples[k]
    ensures r == ds.(tuples := r.tuples)
  {
    ds.(tuples := ds.tuples[(row, column) := t])
  }

  /** The tuple associated with (row key, column key), if any. */
  function TupleAt(ds: Dataset, row: Key, column: Key): Option<DataTuple>
  {
    if (row, column) in ds.tuples then Some(ds.tuples[(row, column)]) else None
  }

  /** The value in a cell of a full dataset, addressed by position. */
  function ValueAt(ds: Dataset, j: nat, i: nat): real
    requires Valid(ds) && Full(ds)
    requires j < |ds.rowKeys| && i < |ds.columnKeys|
  {
    ds.cells[j][i].value
  }

  /** The values of column `i`, top row first. */
  function Column(ds: Dataset, i: nat): (col: seq<real>)
    requires Valid(ds) && Full(ds) && i < |ds.columnKeys|
    ensures |col| == |ds.rowKeys|
    ensures forall j :: 0 <= j < |col| ==> col[j] == ValueAt(ds, j, i)
  {
    seq(|ds.rowKeys|, j requires 0 <= j < |ds.rowKeys| => ValueAt(ds, j, i))
  }

  /** `setValue` on an existing (row, column) pair, addressed by position. */
  function SetCell(ds: Dataset, j: nat, i: nat, v: real): (r: Dataset)
    requires Valid(ds) && Full(ds)
    requires j < |ds.rowKeys| && i < |ds.columnKeys|
    ensures Valid(r) && Full(r)
    ensures r.rowKeys == ds.rowKeys && r.columnKeys == ds.columnKeys
    ensures r.tuples == ds.tuples && r.differentStats == ds.differentStats
    ensures ValueAt(r, j, i) == v
    ensures forall b, a :: 0 <= b < |r.rowKeys| && 0 <= a < |r.columnKeys| && (b, a) != (j, i) ==>
              ValueAt(r, b, a) == ValueAt(ds, b, a)
  {
    ds.(cells := ds.cells[j := ds.cells[j][i := Some(v)]])
  }
}
