/** The bar-chart builder: how `addBar` turns one analysis record into dataset cells,
    which dataset receives them, the mixed-statistics flag, the subtraction pass, the
    legend rule, the tick-label threshold, and the percent Y axis. */
module BarChartBuilder {
  import opened Outcomes
  import opened Definitions
  import opened CategoryDataset
  import opened Subtraction

  /** What `addBar` can learn about one analysis record. Host, type and field matching,
      the bar and category naming modes (already bound to the builder's interval and
      granularity) and the statistic values are not part of this model, so they are
      given as functions. */
  datatype RecordView = RecordView(
    dataSet: nat,
    matchesHost: DataDefinition -> bool,
    matchingTypes: DataDefinition -> seq<string>,
    matchingFields: (DataDefinition, string) -> seq<string>,
    barName: (DataDefinition, string, string) -> Key,
    categoryName: (DataDefinition, string, string) -> Key,
    value: (Statistic, string, string) -> real)

  /** One value to insert: bar name (row), category name (column), the statistic that
      produced it, the value and the tuple to associate with the cell. */
  datatype Cell = Cell(barName: Key, categoryName: Key, statistic: Statistic, value: real, tuple: DataTuple)

  /** The cell of field `f` of type `t` under definition `d`: its value is what the
      definition's statistic gives for that type and field, and its tuple names the
      record's data set, the type and the field. */
  function MakeCell(rec: RecordView, d: DataDefinition, t: string, f: string): (c: Cell)
    ensures c.statistic == d.statistic && c.tuple == DataTuple(rec.dataSet, t, f)
    ensures c.value == rec.value(c.statistic, c.tuple.typeId, c.tuple.field)
    ensures c.barName == rec.barName(d, t, f) && c.categoryName == rec.categoryName(d, t, f)
  {
    Cell(rec.barName(d, t, f), rec.categoryName(d, t, f), d.statistic,
         rec.value(d.statistic, t, f), DataTuple(rec.dataSet, t, f))
  }

  /** The cells of one matching type, one per matching field, in field order. */
  function FieldCells(rec: RecordView, d: DataDefinition, t: string, fields: seq<string>): (cs: seq<Cell>)
    ensures |cs| == |fields|
    ensures forall k :: 0 <= k < |cs| ==> cs[k] == MakeCell(rec, d, t, fields[k])
  {
    if fields == [] then [] else [MakeCell(rec, d, t, fields[0])] + FieldCells(rec, d, t, fields[1..])
  }

  /** The cells of one data definition over the given matching types. */
  function TypeCells(rec: RecordView, d: DataDefinition, types: seq<string>): (cs: seq<Cell>)
    ensures forall c :: c in cs ==> c.statistic == d.statistic && c.tuple.dataSet == rec.dataSet
    ensures forall c :: c in cs ==> exists k :: 0 <= k < |types| && c.tuple.typeId == types[k]
  {
    if types == [] then []
    else FieldCells(rec, d, types[0], rec.matchingFields(d, types[0])) + TypeCells(rec, d, types[1..])
  }

  /** The cells of one data definition: none unless it matches the record's host. */
  function DefinitionCells(rec: RecordView, d: DataDefinition): (cs: seq<Cell>)
    ensures !rec.matchesHost(d) ==> cs == []
    ensures forall c :: c in cs ==> c.statistic == d.statistic && c.tuple.dataSet == rec.dataSet
  {
    if rec.matchesHost(d) then TypeCells(rec, d, rec.matchingTypes(d)) else []
  }

  /** The cells `addBar` inserts, in the order of its three nested loops. Every cell
      comes from a data definition that matches the record's host and carries that
      definition's statistic. */
  function Cells(rec: RecordView, defs: seq<DataDefinition>): (cs: seq<Cell>)
    ensures forall c :: c in cs ==>
              c.tuple.dataSet == rec.dataSet &&
              exists k :: 0 <= k < |defs| && rec.matchesHost(defs[k]) && c.statistic == defs[k].statistic
    ensures (forall k :: 0 <= k < |defs| ==> !rec.matchesHost(defs[k])) ==> cs == []
  {
    if defs == [] then []
    else
      var first, rest := DefinitionCells(rec, defs[0]), Cells(rec, defs[1..]);
      assert forall c :: c in rest ==> exists k :: 0 <= k < |defs| && rec.matchesHost(defs[k]) && c.statistic == defs[k].statistic by {
        forall c | c in rest
          ensures exists k :: 0 <= k < |defs| && rec.matchesHost(defs[k]) && c.statistic == defs[k].statistic
        {
          var k :| 0 <= k < |defs[1..]| && rec.matchesHost(defs[1..][k]) && c.statistic == defs[1..][k].statistic;
          assert defs[k + 1] == defs[1..][k];
        }
      }
      first + rest
  }

  lemma AppendAssociative<T>(x: seq<T>, y: seq<T>, z: seq<T>)
    ensures x + (y + z) == (x + y) + z
  {
  }

  lemma IndexInMiddle<T>(a: seq<T>, b: seq<T>, c: seq<T>, m: nat)
    requires m < |b|
    ensures |a| + m < |a + b + c| && (a + b + c)[|a| + m] == b[m]
  {
  }

  lemma AppendHeadTail<T>(a: seq<T>, b: seq<T>)
    ensures a == [] ==> a + b == b
    ensures a != [] ==> (a + b)[0] == a[0] && (a + b)[1..] == a[1..] + b
  {
    if a == [] {
      assert a + b == b;
    } else {
      assert (a + b)[1..] == a[1..] + b;
    }
  }

  /** A type's cells are exactly one per (matching type, matching field) pair. */
  lemma {:induction false} TypeCellsExactly(rec: RecordView, d: DataDefinition, types: seq<string>, c: Cell)
    ensures c in TypeCells(rec, d, types) <==>
              exists t, f :: t in types && f in rec.matchingFields(d, t) && c == MakeCell(rec, d, t, f)
  {
    if types != [] {
      var fs := rec.matchingFields(d, types[0]);
      TypeCellsExactly(rec, d, types[1..], c);
      if c in FieldCells(rec, d, types[0], fs) {
        var i :| 0 <= i < |fs| && FieldCells(rec, d, types[0], fs)[i] == c;
        assert fs[i] in rec.matchingFields(d, types[0]) && c == MakeCell(rec, d, types[0], fs[i]);
      }
      if exists t, f :: t in types && f in rec.matchingFields(d, t) && c == MakeCell(rec, d, t, f) {
        var t, f :| t in types && f in rec.matchingFields(d, t) && c == MakeCell(rec, d, t, f);
        if t == types[0] {
          var i :| 0 <= i < |fs| && fs[i] == f;
          assert FieldCells(rec, d, types[0], fs)[i] == c;
        } else {
          assert t in types[1..];
        }
      }
    }
  }

  /** A definition's cells are exactly one per matching type and field, and only when it
      matches the record's host. */
  lemma DefinitionCellsExactly(rec: RecordView, d: DataDefinition, c: Cell)
    ensures c in DefinitionCells(rec, d) <==>
              rec.matchesHost(d) &&
              exists t, f :: t in rec.matchingTypes(d) && f in rec.matchingFields(d, t) && c == MakeCell(rec, d, t, f)
  {
    if rec.matchesHost(d) {
      TypeCellsExactly(rec, d, rec.matchingTypes(d), c);
    }
  }

  /** `addBar` produces a cell for every host-matching definition, matching type and
      matching field, and no other cell. */
  lemma {:induction false} CellsExactly(rec: RecordView, defs: seq<DataDefinition>, c: Cell)
    ensures c in Cells(rec, defs) <==>
              exists k, t, f :: 0 <= k < |defs| && rec.matchesHost(defs[k]) && t in rec.matchingTypes(defs[k]) &&
                                f in rec.matchingFields(defs[k], t) && c == MakeCell(rec, defs[k], t, f)
  {
    if defs != [] {
      CellsExactly(rec, defs[1..], c);
      DefinitionCellsExactly(rec, defs[0], c);
      if c in DefinitionCells(rec, defs[0]) {
        var t, f :| t in rec.matchingTypes(defs[0]) && f in rec.matchingFields(defs[0], t) && c == MakeCell(rec, defs[0], t, f);
        assert 0 < |defs| && rec.matchesHost(defs[0]);
      }
      if c in Cells(rec, defs[1..]) {
        var k, t, f :| 0 <= k < |defs[1..]| && rec.matchesHost(defs[1..][k]) && t in rec.matchingTypes(defs[1..][k]) &&
                       f in rec.matchingFields(defs[1..][k], t) && c == MakeCell(rec, defs[1..][k], t, f);
        assert defs[1..][k] == defs[k + 1];
      }
      if exists k, t, f :: 0 <= k < |defs| && rec.matchesHost(defs[k]) && t in rec.matchingTypes(defs[k]) &&
                           f in rec.matchingFields(defs[k], t) && c == MakeCell(rec, defs[k], t, f) {
        var k, t, f :| 0 <= k < |defs| && rec.matchesHost(defs[k]) && t in rec.matchingTypes(defs[k]) &&
                       f in rec.matchingFields(defs[k], t) && c == MakeCell(rec, defs[k], t, f);
        if k > 0 {
          assert defs[1..][k - 1] == defs[k];
        }
      }
    }
  }

  /** The cells of a list of types are those of its first part followed by those of the
      rest: the type loop keeps the order of the matching types. */
  lemma {:induction false} TypeCellsAppend(rec: RecordView, d: DataDefinition, a: seq<string>, b: seq<string>)
    ensures TypeCells(rec, d, a + b) == TypeCells(rec, d, a) + TypeCells(rec, d, b)
  {
    AppendHeadTail(a, b);
    if a != [] {
      TypeCellsAppend(rec, d, a[1..], b);
      var first := FieldCells(rec, d, a[0], rec.matchingFields(d, a[0]));
      assert TypeCells(rec, d, a + b) == first + TypeCells(rec, d, a[1..] + b);
      AppendAssociative(first, TypeCells(rec, d, a[1..]), TypeCells(rec, d, b));
    }
  }

  lemma CellsCons(rec: RecordView, defs: seq<DataDefinition>)
    requires defs != []
    ensures Cells(rec, defs) == DefinitionCells(rec, defs[0]) + Cells(rec, defs[1..])
  {
  }

  /** The cells of a list of definitions are those of its first part followed by those
      of the rest: the definition loop keeps the definitions' order. */
  lemma {:induction false} CellsAppend(rec: RecordView, a: seq<DataDefinition>, b: seq<DataDefinition>)
    ensures Cells(rec, a + b) == Cells(rec, a) + Cells(rec, b)
  {
    AppendHeadTail(a, b);
    if a != [] {
      CellsAppend(rec, a[1..], b);
      CellsCons(rec, a + b);
      CellsCons(rec, a);
      var first := DefinitionCells(rec, a[0]);
      AppendAssociative(first, Cells(rec, a[1..]), Cells(rec, b));
    }
  }

  /** Definition `k`'s cells sit between those of the definitions before it and those
      after it. */
  lemma CellsSplit(rec: RecordView, defs: seq<DataDefinition>, k: nat)
    requires k < |defs|
    ensures Cells(rec, defs) == Cells(rec, defs[..k]) + DefinitionCells(rec, defs[k]) + Cells(rec, defs[k + 1..])
  {
    assert defs == defs[..k] + defs[k..];
    CellsAppend(rec, defs[..k], defs[k..]);
    assert defs[k..][1..] == defs[k + 1..];
  }

  /** Type `k`'s cells, one per matching field in field order, sit between those of the
      types before it and those after it. */
  lemma TypeCellsSplit(rec: RecordView, d: DataDefinition, types: seq<string>, k: nat)
    requires k < |types|
    ensures TypeCells(rec, d, types) ==
              TypeCells(rec, d, types[..k]) + FieldCells(rec, d, types[k], rec.matchingFields(d, types[k])) +
              TypeCells(rec, d, types[k + 1..])
  {
    assert types == types[..k] + types[k..];
    TypeCellsAppend(rec, d, types[..k], types[k..]);
    assert types[k..][1..] == types[k + 1..];
  }

  /** For a definition that matches the host, the cells of its `k`-th matching type, one
      per matching field in field order, sit between those of the types before it and
      those after it. */
  lemma DefinitionCellsSplit(rec: RecordView, d: DataDefinition, k: nat)
    requires rec.matchesHost(d) && k < |rec.matchingTypes(d)|
    ensures var types := rec.matchingTypes(d);
            DefinitionCells(rec, d) ==
              TypeCells(rec, d, types[..k]) + FieldCells(rec, d, types[k], rec.matchingFields(d, types[k])) +
              TypeCells(rec, d, types[k + 1..])
  {
    TypeCellsSplit(rec, d, rec.matchingTypes(d), k);
  }

  /** The type and field loops of one host-matching definition, position by position:
      the cell of matching type `j` and its matching field `i` comes after every cell of
      the earlier types and after those of the earlier fields of type `j`. */
  lemma DefinitionCellsAt(rec: RecordView, d: DataDefinition, j: nat, i: nat)
    requires rec.matchesHost(d) && j < |rec.matchingTypes(d)|
    requires i < |rec.matchingFields(d, rec.matchingTypes(d)[j])|
    ensures var types := rec.matchingTypes(d);
            var n := |TypeCells(rec, d, types[..j])| + i;
            n < |DefinitionCells(rec, d)| &&
            DefinitionCells(rec, d)[n] == MakeCell(rec, d, types[j], rec.matchingFields(d, types[j])[i])
  {
    var types := rec.matchingTypes(d);
    DefinitionCellsSplit(rec, d, j);
    IndexInMiddle(TypeCells(rec, d, types[..j]), FieldCells(rec, d, types[j], rec.matchingFields(d, types[j])),
                  TypeCells(rec, d, types[j + 1..]), i);
  }

  /** The three nested loops of `addBar`, position by position: the cell of definition
      `k`, its matching type `j` and that type's matching field `i` comes after every
      cell of the earlier definitions, then after every cell of the earlier types of
      definition `k`, then after those of the earlier fields of type `j`. */
  lemma CellsAt(rec: RecordView, defs: seq<DataDefinition>, k: nat, j: nat, i: nat)
    requires k < |defs| && rec.matchesHost(defs[k])
    requires j < |rec.matchingTypes(defs[k])|
    requires i < |rec.matchingFields(defs[k], rec.matchingTypes(defs[k])[j])|
    ensures var d, types := defs[k], rec.matchingTypes(defs[k]);
            var n := |Cells(rec, defs[..k])| + |TypeCells(rec, d, types[..j])| + i;
            n < |Cells(rec, defs)| &&
            Cells(rec, defs)[n] == MakeCell(rec, d, types[j], rec.matchingFields(d, types[j])[i])
  {
    var d := defs[k];
    DefinitionCellsAt(rec, d, j, i);
    CellsSplit(rec, defs, k);
    IndexInMiddle(Cells(rec, defs[..k]), DefinitionCells(rec, d), Cells(rec, defs[k + 1..]),
                  |TypeCells(rec, d, rec.matchingTypes(d)[..j])| + i);
  }

  /** Two consecutively inserted cells carry different statistics. */
  predicate ConsecutiveStatsDiffer(cells: seq<Cell>)
  {
    exists k :: 1 <= k < |cells| && cells[k - 1].statistic != cells[k].statistic
  }

  /** All cells carry the same statistic. */
  predicate SameStatistic(cells: seq<Cell>)
  {
    forall a, b :: 0 <= a < |cells| && 0 <= b < |cells| ==> cells[a].statistic == cells[b].statistic
  }

  lemma {:induction false} EqualNeighboursEqualFirst(cells: seq<Cell>, k: nat)
    requires !ConsecutiveStatsDiffer(cells) && k < |cells|
    ensures cells[k].statistic == cells[0].statistic
  {
    if k > 0 {
      EqualNeighboursEqualFirst(cells, k - 1);
    }
  }

  /** Some neighbouring pair differs exactly when not all statistics are equal. */
  lemma ConsecutiveStatsDifferIffMixed(cells: seq<Cell>)
    ensures ConsecutiveStatsDiffer(cells) <==> !SameStatistic(cells)
  {
    if !ConsecutiveStatsDiffer(cells) {
      forall a, b | 0 <= a < |cells| && 0 <= b < |cells|
        ensures cells[a].statistic == cells[b].statistic
      {
        EqualNeighboursEqualFirst(cells, a);
        EqualNeighboursEqualFirst(cells, b);
      }
    }
  }

  /** The last cell for (`row`, `column`), if any: later insertions overwrite earlier
      ones. */
  function LastCell(cells: seq<Cell>, row: Key, column: Key): (r: Option<Cell>)
    ensures r.None? <==> forall c :: c in cells ==> (c.barName, c.categoryName) != (row, column)
    ensures r.Some? ==> exists k :: 0 <= k < |cells| && cells[k] == r.value &&
                          (r.value.barName, r.value.categoryName) == (row, column) &&
                          forall j :: k < j < |cells| ==> (cells[j].barName, cells[j].categoryName) != (row, column)
  {
    if cells == [] then None
    else
      var rest := LastCell(cells[1..], row, column);
      if rest.Some? then
        var k :| 0 <= k < |cells[1..]| && cells[1..][k] == rest.value &&
                 (rest.value.barName, rest.value.categoryName) == (row, column) &&
                 forall j :: k < j < |cells[1..]| ==> (cells[1..][j].barName, cells[1..][j].categoryName) != (row, column);
        assert cells[k + 1] == rest.value;
        assert forall j :: k + 1 < j < |cells| ==> cells[j] == cells[1..][j - 1];
        rest
      else if (cells[0].barName, cells[0].categoryName) == (row, column) then
        assert forall j :: 0 < j < |cells| ==> cells[j] in cells[1..];
        Some(cells[0])
      else
        assert forall c :: c in cells ==> c == cells[0] || c in cells[1..];
        None
  }

  /** The last cell for a key pair is the last one among the later cells, or else the
      first cell if it has those keys. */
  lemma LastCellCons(cells: seq<Cell>, row: Key, column: Key)
    requires cells != []
    ensures LastCell(cells, row, column) ==
              if LastCell(cells[1..], row, column).Some? then LastCell(cells[1..], row, column)
              else if (cells[0].barName, cells[0].categoryName) == (row, column) then Some(cells[0])
              else None
  {
  }

  /** The value the last cell for (`row`, `column`) carries, if any. */
  function LastValue(cells: seq<Cell>, row: Key, column: Key): Option<real>
  {
    if LastCell(cells, row, column).Some? then Some(LastCell(cells, row, column).value.value) else None
  }

  /** The tuple the last cell for (`row`, `column`) carries, if any. */
  function LastTuple(cells: seq<Cell>, row: Key, column: Key): Option<DataTuple>
  {
    if LastCell(cells, row, column).Some? then Some(LastCell(cells, row, column).value.tuple) else None
  }

  function BarNames(cells: seq<Cell>): set<Key>
  {
    set c | c in cells :: c.barName
  }

  function CategoryNames(cells: seq<Cell>): set<Key>
  {
    set c | c in cells :: c.categoryName
  }

  /** Nothing to take: the keys stay as they are. */
  lemma FirstOccurrencesNone(names: seq<Key>, seen: seq<Key>, keys: seq<Key>)
    requires |names| == 0 && keys == seen
    ensures keys == seen + FirstOccurrences(names, seen)
  {
    assert seen + [] == seen;
  }

  /** Taking the first name: it joins `seen` unless already there, and the rest are
      taken after it. */
  lemma FirstOccurrencesStep(names: seq<Key>, seen: seq<Key>, seen': seq<Key>, keys: seq<Key>)
    requires names != []
    requires seen' == seen + (if names[0] in seen then [] else [names[0]])
    requires keys == seen' + FirstOccurrences(names[1..], seen')
    ensures keys == seen + FirstOccurrences(names, seen)
  {
    if names[0] !in seen {
      var rest := FirstOccurrences(names[1..], seen');
      assert seen + ([names[0]] + rest) == (seen + [names[0]]) + rest;
    } else {
      assert seen + [] == seen;
    }
  }

  /** The cells' bar names, in insertion order. */
  function BarSequence(cells: seq<Cell>): (r: seq<Key>)
    ensures |r| == |cells| && forall i :: 0 <= i < |cells| ==> r[i] == cells[i].barName
  {
    if cells == [] then [] else [cells[0].barName] + BarSequence(cells[1..])
  }

  /** The cells' category names, in insertion order. */
  function CategorySequence(cells: seq<Cell>): (r: seq<Key>)
    ensures |r| == |cells| && forall i :: 0 <= i < |cells| ==> r[i] == cells[i].categoryName
  {
    if cells == [] then [] else [cells[0].categoryName] + CategorySequence(cells[1..])
  }

  /** The names not in `seen`, each once, in the order of their first occurrence. */
  function FirstOccurrences(names: seq<Key>, seen: seq<Key>): (r: seq<Key>)
    ensures forall k :: k in r <==> k in names && k !in seen
    ensures Distinct(r)
    decreases |names|
  {
    if names == [] then []
    else if names[0] in seen then FirstOccurrences(names[1..], seen)
    else
      var rest := FirstOccurrences(names[1..], seen + [names[0]]);
      assert names[0] !in rest;
      [names[0]] + rest
  }

  /** One pass of the loop body: raise the flag if the cell's statistic differs from the
      previous cell's, add its value and associate its tuple. */
  function InsertCell(ds: Dataset, c: Cell, previous: Option<Statistic>): (r: Dataset)
    requires Valid(ds)
    ensures Valid(r)
    ensures r.rowKeys == ds.rowKeys + (if c.barName in ds.rowKeys then [] else [c.barName])
    ensures r.columnKeys == ds.columnKeys + (if c.categoryName in ds.columnKeys then [] else [c.categoryName])
    ensures r.tuples.Keys == ds.tuples.Keys + {(c.barName, c.categoryName)}
    ensures r.tuples[(c.barName, c.categoryName)] == c.tuple
    ensures forall k :: k in ds.tuples && k != (c.barName, c.categoryName) ==> r.tuples[k] == ds.tuples[k]
    ensures r.differentStats <==> ds.differentStats || (previous.Some? && previous.value != c.statistic)
  {
    var flagged := if previous.Some? && previous.value != c.statistic then ds.(differentStats := true) else ds;
    AssociateTuple(AddValue(flagged, c.value, c.barName, c.categoryName), c.barName, c.categoryName, c.tuple)
  }

  /** Inserting a cell stores its value under its keys and leaves every other value. */
  lemma InsertCellValue(ds: Dataset, c: Cell, previous: Option<Statistic>, a: Key, b: Key)
    requires Valid(ds)
    ensures Get(InsertCell(ds, c, previous), a, b) ==
              if (a, b) == (c.barName, c.categoryName) then Some(c.value) else Get(ds, a, b)
  {
    var flagged := if previous.Some? && previous.value != c.statistic then ds.(differentStats := true) else ds;
    GetIgnoresBookkeeping(ds, flagged);
    var added := AddValue(flagged, c.value, c.barName, c.categoryName);
    GetIgnoresBookkeeping(added, InsertCell(ds, c, previous));
  }

  /** Inserting a cell associates its tuple with its keys and leaves every other
      association. */
  lemma InsertCellTuple(ds: Dataset, c: Cell, previous: Option<Statistic>, a: Key, b: Key)
    requires Valid(ds)
    ensures TupleAt(InsertCell(ds, c, previous), a, b) ==
              if (a, b) == (c.barName, c.categoryName) then Some(c.tuple) else TupleAt(ds, a, b)
  {
  }

  lemma ConsecutiveStatsDifferCons(cells: seq<Cell>)
    requires |cells| > 0
    ensures ConsecutiveStatsDiffer(cells) <==>
              (|cells| > 1 && cells[1].statistic != cells[0].statistic) || ConsecutiveStatsDiffer(cells[1..])
  {
    if ConsecutiveStatsDiffer(cells[1..]) {
      var k :| 1 <= k < |cells[1..]| && cells[1..][k - 1].statistic != cells[1..][k].statistic;
      assert cells[k].statistic != cells[k + 1].statistic;
    }
    if ConsecutiveStatsDiffer(cells) && !(|cells| > 1 && cells[1].statistic != cells[0].statistic) {
      var k :| 1 <= k < |cells| && cells[k - 1].statistic != cells[k].statistic;
      assert cells[1..][k - 2].statistic != cells[1..][k - 1].statistic;
    }
  }

  /** The loops over all cells, in order. */
  function InsertCells(ds: Dataset, cells: seq<Cell>, previous: Option<Statistic>): (r: Dataset)
    requires Valid(ds)
    ensures Valid(r)
    ensures ds.rowKeys <= r.rowKeys && ds.columnKeys <= r.columnKeys
    ensures ds.tuples.Keys <= r.tuples.Keys
    ensures ds.differentStats ==> r.differentStats
    decreases |cells|
  {
    if cells == [] then ds
    else InsertCells(InsertCell(ds, cells[0], previous), cells[1..], Some(cells[0].statistic))
  }

  /** The flag ends raised iff it started raised, the first cell differs from the
      statistic seen before, or two neighbouring cells differ. */
  lemma {:induction false} InsertCellsFlag(ds: Dataset, cells: seq<Cell>, previous: Option<Statistic>)
    requires Valid(ds)
    ensures InsertCells(ds, cells, previous).differentStats <==>
              || ds.differentStats
              || (previous.Some? && |cells| > 0 && cells[0].statistic != previous.value)
              || ConsecutiveStatsDiffer(cells)
    decreases |cells|
  {
    if cells != [] {
      InsertCellsFlag(InsertCell(ds, cells[0], previous), cells[1..], Some(cells[0].statistic));
      ConsecutiveStatsDifferCons(cells);
    }
  }

  /** Old row keys keep their positions and the new bar names follow, each once, in the
      order they were first inserted. */
  lemma {:induction false} InsertCellsRowPrefix(ds: Dataset, cells: seq<Cell>, previous: Option<Statistic>)
    requires Valid(ds)
    ensures InsertCells(ds, cells, previous).rowKeys == ds.rowKeys + FirstOccurrences(BarSequence(cells), ds.rowKeys)
    decreases |cells|
  {
    if cells != [] {
      var d1 := InsertCell(ds, cells[0], previous);
      InsertCellsRowPrefix(d1, cells[1..], Some(cells[0].statistic));
      assert BarSequence(cells)[1..] == BarSequence(cells[1..]);
      FirstOccurrencesStep(BarSequence(cells), ds.rowKeys, d1.rowKeys, InsertCells(ds, cells, previous).rowKeys);
    } else {
      FirstOccurrencesNone(BarSequence(cells), ds.rowKeys, InsertCells(ds, cells, previous).rowKeys);
    }
  }

  /** Old column keys keep their positions and the new category names follow, each once,
      in the order they were first inserted. */
  lemma {:induction false} InsertCellsColumnPrefix(ds: Dataset, cells: seq<Cell>, previous: Option<Statistic>)
    requires Valid(ds)
    ensures InsertCells(ds, cells, previous).columnKeys ==
              ds.columnKeys + FirstOccurrences(CategorySequence(cells), ds.columnKeys)
    decreases |cells|
  {
    if cells != [] {
      var d1 := InsertCell(ds, cells[0], previous);
      InsertCellsColumnPrefix(d1, cells[1..], Some(cells[0].statistic));
      assert CategorySequence(cells)[1..] == CategorySequence(cells[1..]);
      FirstOccurrencesStep(CategorySequence(cells), ds.columnKeys, d1.columnKeys, InsertCells(ds, cells, previous).columnKeys);
    } else {
      FirstOccurrencesNone(CategorySequence(cells), ds.columnKeys, InsertCells(ds, cells, previous).columnKeys);
    }
  }

  /** A row key is present afterwards iff it was present before or some cell names it
      as its bar. */
  lemma {:induction false} InsertCellsRowKey(ds: Dataset, cells: seq<Cell>, previous: Option<Statistic>, k: Key)
    requires Valid(ds)
    ensures k in InsertCells(ds, cells, previous).rowKeys <==> k in ds.rowKeys || k in BarNames(cells)
    decreases |cells|
  {
    if cells != [] {
      var c := cells[0];
      var d1 := InsertCell(ds, c, previous);
      InsertCellsRowKey(d1, cells[1..], Some(c.statistic), k);
      assert k in d1.rowKeys <==> k in ds.rowKeys || k == c.barName;
      assert k in BarNames(cells) <==> k == c.barName || k in BarNames(cells[1..]) by {
        if k in BarNames(cells[1..]) {
          var d :| d in cells[1..] && d.barName == k;
          assert d in cells;
        }
        if k in BarNames(cells) && k != c.barName {
          var d :| d in cells && d.barName == k;
          assert d in cells[1..];
        }
      }
    }
  }

  /** A column key is present afterwards iff it was present before or some cell names
      it as its category. */
  lemma {:induction false} InsertCellsColumnKey(ds: Dataset, cells: seq<Cell>, previous: Option<Statistic>, k: Key)
    requires Valid(ds)
    ensures k in InsertCells(ds, cells, previous).columnKeys <==> k in ds.columnKeys || k in CategoryNames(cells)
    decreases |cells|
  {
    if cells != [] {
      var c := cells[0];
      var d1 := InsertCell(ds, c, previous);
      InsertCellsColumnKey(d1, cells[1..], Some(c.statistic), k);
      assert k in d1.columnKeys <==> k in ds.columnKeys || k == c.categoryName;
      assert k in CategoryNames(cells) <==> k == c.categoryName || k in CategoryNames(cells[1..]) by {
        if k in CategoryNames(cells[1..]) {
          var d :| d in cells[1..] && d.categoryName == k;
          assert d in cells;
        }
        if k in CategoryNames(cells) && k != c.categoryName {
          var d :| d in cells && d.categoryName == k;
          assert d in cells[1..];
        }
      }
    }
  }

  lemma InsertCellsKeys(ds: Dataset, cells: seq<Cell>, previous: Option<Statistic>)
    requires Valid(ds)
    ensures forall k :: k in InsertCells(ds, cells, previous).rowKeys <==> k in ds.rowKeys || k in BarNames(cells)
    ensures forall k :: k in InsertCells(ds, cells, previous).columnKeys <==> k in ds.columnKeys || k in CategoryNames(cells)
  {
    forall k ensures k in InsertCells(ds, cells, previous).rowKeys <==> k in ds.rowKeys || k in BarNames(cells) {
      InsertCellsRowKey(ds, cells, previous, k);
    }
    forall k ensures k in InsertCells(ds, cells, previous).columnKeys <==> k in ds.columnKeys || k in CategoryNames(cells) {
      InsertCellsColumnKey(ds, cells, previous, k);
    }
  }

  /** Each cell reads the value of the last inserted cell with its keys, or its old value
      when no cell has them. */
  lemma {:induction false} InsertCellsValueAt(ds: Dataset, cells: seq<Cell>, previous: Option<Statistic>, a: Key, b: Key)
    requires Valid(ds)
    ensures Get(InsertCells(ds, cells, previous), a, b) ==
              if LastValue(cells, a, b).Some? then LastValue(cells, a, b) else Get(ds, a, b)
    decreases |cells|
  {
    if cells != [] {
      var c := cells[0];
      var d1 := InsertCell(ds, c, previous);
      InsertCellsValueAt(d1, cells[1..], Some(c.statistic), a, b);
      LastCellCons(cells, a, b);
      InsertCellValue(ds, c, previous, a, b);
    }
  }

  lemma InsertCellsValues(ds: Dataset, cells: seq<Cell>, previous: Option<Statistic>)
    requires Valid(ds)
    ensures forall a, b :: Get(InsertCells(ds, cells, previous), a, b) ==
              if LastValue(cells, a, b).Some? then LastValue(cells, a, b) else Get(ds, a, b)
  {
    forall a, b ensures Get(InsertCells(ds, cells, previous), a, b) ==
                          if LastValue(cells, a, b).Some? then LastValue(cells, a, b) else Get(ds, a, b)
    {
      InsertCellsValueAt(ds, cells, previous, a, b);
    }
  }

  /** Each key pair holds the tuple of the last inserted cell with those keys, or its old
      tuple when no cell has them. */
  lemma {:induction false} InsertCellsTupleAt(ds: Dataset, cells: seq<Cell>, previous: Option<Statistic>, a: Key, b: Key)
    requires Valid(ds)
    ensures TupleAt(InsertCells(ds, cells, previous), a, b) ==
              if LastTuple(cells, a, b).Some? then LastTuple(cells, a, b) else TupleAt(ds, a, b)
    decreases |cells|
  {
    if cells != [] {
      var c := cells[0];
      InsertCellsTupleAt(InsertCell(ds, c, previous), cells[1..], Some(c.statistic), a, b);
      InsertCellTuple(ds, c, previous, a, b);
      LastCellCons(cells, a, b);
    }
  }

  /** Every inserted cell has a tuple associated with its keys, the last cell's tuple
      wins, and other associations stay. */
  lemma {:induction false} InsertCellsTuples(ds: Dataset, cells: seq<Cell>, previous: Option<Statistic>)
    requires Valid(ds)
    ensures ds.tuples.Keys <= InsertCells(ds, cells, previous).tuples.Keys
    ensures forall c :: c in cells ==> (c.barName, c.categoryName) in InsertCells(ds, cells, previous).tuples
    ensures forall a, b :: TupleAt(InsertCells(ds, cells, previous), a, b) ==
              if LastTuple(cells, a, b).Some? then LastTuple(cells, a, b) else TupleAt(ds, a, b)
    decreases |cells|
  {
    if cells != [] {
      InsertCellsTuples(InsertCell(ds, cells[0], previous), cells[1..], Some(cells[0].statistic));
      assert forall c :: c in cells ==> c == cells[0] || c in cells[1..];
    }
    forall a, b ensures TupleAt(InsertCells(ds, cells, previous), a, b) ==
                          if LastTuple(cells, a, b).Some? then LastTuple(cells, a, b) else TupleAt(ds, a, b)
    {
      InsertCellsTupleAt(ds, cells, previous, a, b);
    }
  }

  /** All cells of one `addBar` call inserted into `ds`. The flag is raised iff it was
      already raised or not all cells carry the same statistic; it is never lowered. */
  function Insert(ds: Dataset, cells: seq<Cell>): (r: Dataset)
    requires Valid(ds)
    ensures Valid(r)
    ensures r.differentStats <==> ds.differentStats || !SameStatistic(cells)
    ensures forall a, b :: Get(r, a, b) == if LastValue(cells, a, b).Some? then LastValue(cells, a, b) else Get(ds, a, b)
    ensures r.rowKeys == ds.rowKeys + FirstOccurrences(BarSequence(cells), ds.rowKeys)
    ensures r.columnKeys == ds.columnKeys + FirstOccurrences(CategorySequence(cells), ds.columnKeys)
    ensures forall k :: k in r.rowKeys <==> k in ds.rowKeys || k in BarNames(cells)
    ensures forall k :: k in r.columnKeys <==> k in ds.columnKeys || k in CategoryNames(cells)
    ensures forall c :: c in cells ==> (c.barName, c.categoryName) in r.tuples
    ensures forall a, b :: TupleAt(r, a, b) == if LastTuple(cells, a, b).Some? then LastTuple(cells, a, b) else TupleAt(ds, a, b)
  {
    ConsecutiveStatsDifferIffMixed(cells);
    InsertCellsTuples(ds, cells, None);
    InsertCellsFlag(ds, cells, None);
    InsertCellsRowPrefix(ds, cells, None);
    InsertCellsColumnPrefix(ds, cells, None);
    InsertCellsKeys(ds, cells, None);
    InsertCellsValues(ds, cells, None);
    InsertCells(ds, cells, None)
  }

  /** The range of the primary Y axis. */
  datatype Range = AutoRange | FixedRange(lower: real, upper: real)

  /** The parts of the chart `addBar` reads or writes: dataset 0, dataset 1 (present when
      the chart was created with a secondary Y axis), whether a legend exists, the scale of
      the category tick-label font relative to the formatter's axis font, and the primary
      range. */
  datatype Plot = Plot(primary: Dataset, secondary: Option<Dataset>, legend: bool, tickLabelScale: real, range: Range)

  /** The builder: the chart (absent before initialisation) and its definition. */
  datatype Builder = Builder(chart: Option<Plot>, definition: Option<BarChartDefinition>)

  /** Above this many categories the tick labels shrink. */
  const ManyCategories: nat := 32
  const ReducedTickLabelScale: real := 0.9

  predicate ValidPlot(p: Plot)
  {
    Valid(p.primary) && (p.secondary.Some? ==> Valid(p.secondary.value))
  }

  /** The datasets of a new chart: empty, with a second dataset exactly when the
      definition asks for a secondary Y axis; no legend yet. */
  function CreateChart(def: BarChartDefinition): (p: Plot)
    ensures ValidPlot(p) && !p.legend && p.primary == Empty
    ensures p.secondary.Some? <==> def.hasSecondaryYAxis
    ensures p.secondary.Some? ==> p.secondary.value == Empty
  {
    Plot(Empty, if def.hasSecondaryYAxis then Some(Empty) else None, false, 1.0, AutoRange)
  }

  /** `setPercentYAxis`: the primary range becomes [0, 100]. */
  function SetPercentYAxis(p: Plot): (r: Plot)
    ensures r.range == FixedRange(0.0, 100.0)
    ensures r.(range := p.range) == p
  {
    p.(range := FixedRange(0.0, 100.0))
  }

  /** The range part of `formatChart`: a percent definition fixes the primary range to
      [0, 100]; any other definition leaves the chart as it is. */
  function FormatRange(p: Plot, def: BarChartDefinition): (r: Plot)
    ensures def.usePercentYAxis ==> r.range == FixedRange(0.0, 100.0)
    ensures !def.usePercentYAxis ==> r == p
    ensures r.(range := p.range) == p
  {
    if def.usePercentYAxis then SetPercentYAxis(p) else p
  }

  /** The dataset `addBar` writes: dataset 1 for a secondary-axis definition, dataset 0
      otherwise; `None` when dataset 1 does not exist. */
  function TargetDataset(p: Plot, def: BarChartDefinition): (r: Option<Dataset>)
    ensures r.None? <==> def.hasSecondaryYAxis && p.secondary.None?
    ensures def.hasSecondaryYAxis ==> r == p.secondary
    ensures !def.hasSecondaryYAxis ==> r == Some(p.primary)
  {
    if def.hasSecondaryYAxis then p.secondary else Some(p.primary)
  }

  /** A chart made for a definition always has the dataset `addBar` writes for it, and
      that dataset starts empty. */
  lemma CreatedChartTarget(def: BarChartDefinition)
    ensures TargetDataset(CreateChart(def), def) == Some(Empty)
  {
  }

  function WithTarget(p: Plot, def: BarChartDefinition, ds: Dataset): (r: Plot)
    ensures TargetDataset(r, def) == Some(ds)
    ensures def.hasSecondaryYAxis ==> r.primary == p.primary
    ensures !def.hasSecondaryYAxis ==> r.secondary == p.secondary
    ensures r.legend == p.legend && r.tickLabelScale == p.tickLabelScale && r.range == p.range
  {
    if def.hasSecondaryYAxis then p.(secondary := Some(ds)) else p.(primary := ds)
  }

  /** Rows the legend rule counts: those of dataset 0, plus those of dataset 1 when the
      definition has a secondary Y axis. */
  function LegendRowCount(p: Plot, def: BarChartDefinition): (n: nat)
    ensures n >= |p.primary.rowKeys|
    ensures !def.hasSecondaryYAxis ==> n == |p.primary.rowKeys|
    ensures def.hasSecondaryYAxis && p.secondary.Some? ==> n == |p.primary.rowKeys| + |p.secondary.value.rowKeys|
  {
    |p.primary.rowKeys| + (if def.hasSecondaryYAxis && p.secondary.Some? then |p.secondary.value.rowKeys| else 0)
  }

  /** `addBar(record)`. Fails with IllegalState before initialisation and with
      IllegalArgument without a definition, before any dataset is touched. Otherwise the
      record's cells go into the target dataset only; when subtraction is needed and the
      dataset has rows, every column is replaced by its first differences (a missing cell
      throws NullPointer); a legend is added once the counted rows exceed one; more than
      32 categories shrink the tick labels. */
  method AddBar(b: Builder, rec: RecordView) returns (r: Result<Builder>)
    requires b.chart.Some? ==> ValidPlot(b.chart.value)
    ensures b.chart.None? ==> r == Err(IllegalState)
    ensures b.chart.Some? && b.definition.None? ==> r == Err(IllegalArgument)
    ensures b.chart.Some? && b.definition.Some? && TargetDataset(b.chart.value, b.definition.value).None? ==>
              r == Err(NullPointer)
    ensures b.chart.Some? && b.definition.Some? && TargetDataset(b.chart.value, b.definition.value).Some? ==>
              var p, def := b.chart.value, b.definition.value;
              var ins := Insert(TargetDataset(p, def).value, Cells(rec, def.data));
              var subtract := def.subtractionNeeded && |ins.rowKeys| > 0;
              if subtract && !Full(ins) then r == Err(NullPointer)
              else
                && r.Ok? && r.value.definition == b.definition && r.value.chart.Some?
                && var q := r.value.chart.value;
                   && ValidPlot(q)
                   && TargetDataset(q, def).Some?
                   && var out := TargetDataset(q, def).value;
                      && (def.hasSecondaryYAxis ==> q.primary == p.primary)
                      && (!def.hasSecondaryYAxis ==> q.secondary == p.secondary)
                      && (!subtract ==> out == ins)
                      && (subtract ==>
                            (SameShape(out, ins) &&
                             forall i :: 0 <= i < |ins.columnKeys| ==> Column(out, i) == Delta(Column(ins, i))))
                      && (q.legend <==> p.legend || LegendRowCount(q, def) > 1)
                      && q.tickLabelScale == (if |out.columnKeys| > ManyCategories then ReducedTickLabelScale else p.tickLabelScale)
                      && q.range == p.range
  {
    if b.chart.None? {
      return Err(IllegalState);
    }
    if b.definition.None? {
      return Err(IllegalArgument);
    }
    var p, def := b.chart.value, b.definition.value;
    var target := TargetDataset(p, def);
    if target.None? {
      return Err(NullPointer);
    }
    var ds := Insert(target.value, Cells(rec, def.data));
    if def.subtractionNeeded && |ds.rowKeys| != 0 {
      if !Full(ds) {
        return Err(NullPointer);
      }
      ds := SubtractionPass(ds);
    }
    var q := WithTarget(p, def, ds);
    if !q.legend && LegendRowCount(q, def) > 1 {
      q := q.(legend := true);
    }
    if |ds.columnKeys| > ManyCategories {
      q := q.(tickLabelScale := ReducedTickLabelScale);
    }
    r := Ok(Builder(Some(q), b.definition));
  }

  /** An average followed by a maximum raises the flag. */
  lemma MixedFlagExample(t: DataTuple)
    ensures Insert(Empty, [Cell("a", "x", OtherStatistic("AVERAGE"), 1.0, t),
                           Cell("b", "x", OtherStatistic("MAXIMUM"), 2.0, t)]).differentStats
  {
    var mixed := [Cell("a", "x", OtherStatistic("AVERAGE"), 1.0, t), Cell("b", "x", OtherStatistic("MAXIMUM"), 2.0, t)];
    assert mixed[0].statistic != mixed[1].statistic;
  }

  /** Two averages leave the flag lowered. */
  lemma SameFlagExample(t: DataTuple)
    ensures !Insert(Empty, [Cell("a", "x", OtherStatistic("AVERAGE"), 1.0, t),
                            Cell("b", "x", OtherStatistic("AVERAGE"), 2.0, t)]).differentStats
  {
  }
}
