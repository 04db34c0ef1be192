/**
 A small model of the data-frame operations the wrangling step relies on:
 a table is an ordered list of column labels plus rows, and every row keeps
 the index label it was given when the table was parsed. Renaming, dropping,
 inserting a column and sorting by one column are modelled on these values;
 `Frame` is the mutable frame on which dropping and inserting act in place.
 */
module Frames {

  /** A parsed cell: a number or a piece of text. */
  datatype Cell = Num(n: int) | Text(s: string)

  /** A row: its index label and one cell per column. */
  datatype Row = Row(index: int, cells: seq<Cell>)

  datatype Table = Table(columns: seq<string>, rows: seq<Row>)

  /** The errors the frame operations raise. */
  datatype Error =
    | ColumnsNotFound(missing: seq<string>)   // drop of labels that are absent
    | ColumnExists(name: string)              // insert of a label already present
    | PositionOutOfRange(loc: nat)            // insert past the last column
    | KeyNotFound(key: string)                // sort by an absent column
    | KeyNotUnique(key: string)               // sort by a label held by several columns
    | KeyNotNumeric(key: string)              // sort by a column holding text

  datatype Result<T> = Ok(value: T) | Err(error: Error)

  datatype Outcome = Pass | Fail(error: Error)

  /** Every row has exactly `w` cells. */
  predicate AllWidth(s: seq<Row>, w: nat) {
    forall j :: 0 <= j < |s| ==> |s[j].cells| == w
  }

  /** Every row has exactly one cell per column. */
  predicate WellFormed(t: Table) {
    AllWidth(t.rows, |t.columns|)
  }

  /** Reordering rows keeps a cell that every row holds at position `i`. */
  lemma PermutationKeepsCell(a: seq<Row>, b: seq<Row>, i: nat, v: Cell)
    requires multiset(a) == multiset(b)
    requires forall j :: 0 <= j < |a| ==> i < |a[j].cells| && a[j].cells[i] == v
    ensures forall j :: 0 <= j < |b| ==> i < |b[j].cells| && b[j].cells[i] == v
  {
    forall j | 0 <= j < |b| ensures i < |b[j].cells| && b[j].cells[i] == v {
      assert b[j] in multiset(a);
      var l :| 0 <= l < |a| && a[l] == b[j];
    }
  }

  /** Reordering rows keeps them all of the same width. */
  lemma PermutationKeepsWidth(a: seq<Row>, b: seq<Row>, w: nat)
    requires multiset(a) == multiset(b) && AllWidth(a, w)
    ensures AllWidth(b, w)
  {
    forall j | 0 <= j < |b| ensures |b[j].cells| == w {
      assert b[j] in multiset(a);
      var i :| 0 <= i < |a| && a[i] == b[j];
    }
  }

  // ---------------------------------------------------------------------
  // Renaming columns

  function RenameLabel(m: map<string, string>, c: string): string {
    if c in m then m[c] else c
  }

  /** Renames every label found in `m`; other labels, the order of the
      columns and all rows are left as they are. */
  function RenameColumns(t: Table, m: map<string, string>): (r: Table)
    ensures |r.columns| == |t.columns| && r.rows == t.rows
    ensures forall i :: 0 <= i < |t.columns| && t.columns[i] in m ==> r.columns[i] == m[t.columns[i]]
    ensures forall i :: 0 <= i < |t.columns| && t.columns[i] !in m ==> r.columns[i] == t.columns[i]
    ensures WellFormed(t) ==> WellFormed(r)
  {
    Table(seq(|t.columns|, i requires 0 <= i < |t.columns| => RenameLabel(m, t.columns[i])), t.rows)
  }

  // ---------------------------------------------------------------------
  // Dropping columns

  /** The listed labels that no column carries, in the order listed. */
  function Missing(labels: seq<string>, cols: seq<string>): (r: seq<string>)
    ensures forall x :: x in r <==> x in labels && x !in cols
    ensures |r| <= |labels|
  {
    if labels == [] then []
    else (if labels[0] in cols then [] else [labels[0]]) + Missing(labels[1..], cols)
  }

  /** The positions, from `i` on and in increasing order, of the columns
      whose label is not listed in `drop`. */
  function KeptFrom(cols: seq<string>, drop: seq<string>, i: nat): (ix: seq<nat>)
    requires i <= |cols|
    ensures forall k :: 0 <= k < |ix| ==> i <= ix[k] < |cols| && cols[ix[k]] !in drop
    ensures forall k, l :: 0 <= k < l < |ix| ==> ix[k] < ix[l]
    ensures forall p :: i <= p < |cols| && cols[p] !in drop ==> p in ix
    decreases |cols| - i
  {
    if i == |cols| then []
    else if cols[i] in drop then KeptFrom(cols, drop, i + 1)
    else [i] + KeptFrom(cols, drop, i + 1)
  }

  function KeptIndices(cols: seq<string>, drop: seq<string>): seq<nat> {
    KeptFrom(cols, drop, 0)
  }

  function Select<T>(xs: seq<T>, ix: seq<nat>): seq<T>
    requires forall k :: 0 <= k < |ix| ==> ix[k] < |xs|
  {
    seq(|ix|, k requires 0 <= k < |ix| => xs[ix[k]])
  }

  /** Removes every column whose label is listed, with its cell in every
      row; fails, changing nothing, when a listed label is absent. Which
      columns remain, and in what order, is stated by `DropColumnsKeeps`
      and `DropColumnsAligned`. */
  function DropColumns(t: Table, labels: seq<string>): (r: Result<Table>)
    requires WellFormed(t)
    ensures r.Ok? <==> forall x :: x in labels ==> x in t.columns
    ensures r.Err? ==> r.error == ColumnsNotFound(Missing(labels, t.columns))
    ensures r.Ok? ==> WellFormed(r.value) && |r.value.rows| == |t.rows|
  {
    var missing := Missing(labels, t.columns);
    if missing != [] then
      assert missing[0] in labels && missing[0] !in t.columns;
      Err(ColumnsNotFound(missing))
    else
      var ix := KeptIndices(t.columns, labels);
      Ok(Table(Select(t.columns, ix),
               seq(|t.rows|, j requires 0 <= j < |t.rows| => Row(t.rows[j].index, Select(t.rows[j].cells, ix)))))
  }

  /** The columns left by a drop are exactly the columns not listed. */
  lemma DropColumnsKeeps(t: Table, labels: seq<string>)
    requires WellFormed(t) && DropColumns(t, labels).Ok?
    ensures forall c :: c in DropColumns(t, labels).value.columns <==> c in t.columns && c !in labels
  {
    var ix := KeptIndices(t.columns, labels);
    var kept := Select(t.columns, ix);
    assert DropColumns(t, labels).value.columns == kept;
    forall c ensures c in kept <==> c in t.columns && c !in labels {
      if c in kept {
        var k :| 0 <= k < |kept| && kept[k] == c;
        assert t.columns[ix[k]] == c;
      }
      if c in t.columns && c !in labels {
        var p :| 0 <= p < |t.columns| && t.columns[p] == c;
        var k :| 0 <= k < |ix| && ix[k] == p;
        assert kept[k] == c;
      }
    }
  }

  /** A drop keeps the unlisted columns in their order: column k of the
      result is column `ix[k]` of the input, where `ix` enumerates the kept
      positions in increasing order, and every row keeps its index label and
      the cells under those columns. */
  lemma DropColumnsAligned(t: Table, labels: seq<string>)
    requires WellFormed(t) && DropColumns(t, labels).Ok?
    ensures var r, ix := DropColumns(t, labels).value, KeptIndices(t.columns, labels);
      && |r.columns| == |ix|
      && (forall k :: 0 <= k < |ix| ==> r.columns[k] == t.columns[ix[k]])
      && (forall j :: 0 <= j < |t.rows| ==> r.rows[j].index == t.rows[j].index)
      && (forall j, k :: 0 <= j < |t.rows| && 0 <= k < |ix| ==> r.rows[j].cells[k] == t.rows[j].cells[ix[k]])
  {
  }

  // ---------------------------------------------------------------------
  // Inserting a column

  /** Inserts column `name` at position `loc`, holding `v` in every row.
      Fails when the label is already present or `loc` is past the end.
      Where the other columns and cells go is stated by
      `InsertColumnShifts` and `InsertColumnCells`. */
  function InsertColumn(t: Table, loc: nat, name: string, v: Cell): (r: Result<Table>)
    requires WellFormed(t)
    ensures r.Ok? <==> name !in t.columns && loc <= |t.columns|
    ensures name in t.columns ==> r == Err(ColumnExists(name))
    ensures name !in t.columns && loc > |t.columns| ==> r == Err(PositionOutOfRange(loc))
    ensures r.Ok? ==>
      && WellFormed(r.value)
      && |r.value.columns| == |t.columns| + 1
      && r.value.columns[loc] == name
      && |r.value.rows| == |t.rows|
  {
    if name in t.columns then Err(ColumnExists(name))
    else if loc > |t.columns| then Err(PositionOutOfRange(loc))
    else
      Ok(Table(t.columns[..loc] + [name] + t.columns[loc..],
               seq(|t.rows|, j requires 0 <= j < |t.rows| =>
                 Row(t.rows[j].index, t.rows[j].cells[..loc] + [v] + t.rows[j].cells[loc..]))))
  }

  /** The columns before `loc` stay put, those from `loc` on move one to the
      right, and no other label appears. */
  lemma InsertColumnShifts(t: Table, loc: nat, name: string, v: Cell)
    requires WellFormed(t) && InsertColumn(t, loc, name, v).Ok?
    ensures var r := InsertColumn(t, loc, name, v).value;
      && (forall i :: 0 <= i < loc ==> r.columns[i] == t.columns[i])
      && (forall i :: loc <= i < |t.columns| ==> r.columns[i + 1] == t.columns[i])
      && (forall c :: c in r.columns <==> c == name || c in t.columns)
  {
  }

  /** Every row keeps its index label, holds `v` at `loc`, and has its other
      cells shifted like the columns. */
  lemma InsertColumnCells(t: Table, loc: nat, name: string, v: Cell)
    requires WellFormed(t) && InsertColumn(t, loc, name, v).Ok?
    ensures var r := InsertColumn(t, loc, name, v).value;
      forall j :: 0 <= j < |t.rows| ==>
        var old_row, new_row := t.rows[j], r.rows[j];
        && new_row.index == old_row.index
        && new_row.cells[loc] == v
        && (forall i :: 0 <= i < loc ==> new_row.cells[i] == old_row.cells[i])
        && (forall i :: loc <= i < |t.columns| ==> new_row.cells[i + 1] == old_row.cells[i])
  {
  }

  // ---------------------------------------------------------------------
  // Sorting rows by one column, largest first

  /** Finds the single column labelled `key`. */
  function LocateKey(cols: seq<string>, key: string): (r: Result<nat>)
    ensures key !in cols ==> r == Err(KeyNotFound(key))
    ensures r.Ok? ==> r.value < |cols| && cols[r.value] == key
    ensures r.Ok? ==> forall i :: 0 <= i < |cols| && cols[i] == key ==> i == r.value
    ensures r.Err? && key in cols ==> r == Err(KeyNotUnique(key))
    ensures r.Err? && key in cols ==> exists i, j :: 0 <= i < j < |cols| && cols[i] == key && cols[j] == key
  {
    if |cols| == 0 then Err(KeyNotFound(key))
    else if cols[0] == key then
      (if key in cols[1..] then Err(KeyNotUnique(key)) else Ok(0))
    else
      match LocateKey(cols[1..], key)
      case Ok(i) => Ok(i + 1)
      case Err(e) => Err(e)
  }

  predicate HasNumericKey(r: Row, k: nat) {
    k < |r.cells| && r.cells[k].Num?
  }

  function KeyOf(r: Row, k: nat): int
    requires HasNumericKey(r, k)
  {
    r.cells[k].n
  }

  predicate NumericKeys(s: seq<Row>, k: nat) {
    forall i :: 0 <= i < |s| ==> HasNumericKey(s[i], k)
  }

  /** Keys are numeric and never increase along `s`. */
  predicate SortedDesc(s: seq<Row>, k: nat) {
    NumericKeys(s, k) && forall i, j :: 0 <= i < j < |s| ==> KeyOf(s[i], k) >= KeyOf(s[j], k)
  }

  /** Putting in front a row whose key is no smaller keeps the order. */
  lemma ConsSorted(x: Row, s: seq<Row>, k: nat)
    requires HasNumericKey(x, k) && SortedDesc(s, k)
    requires s != [] ==> KeyOf(x, k) >= KeyOf(s[0], k)
    ensures SortedDesc([x] + s, k)
  {
  }

  lemma TailSorted(s: seq<Row>, k: nat)
    requires SortedDesc(s, k) && s != []
    ensures SortedDesc(s[1..], k)
    ensures |s| > 1 ==> KeyOf(s[0], k) >= KeyOf(s[1], k)
  {
  }

  /** Puts `x` into the non-increasing sequence `s`. */
  function InsertDesc(x: Row, s: seq<Row>, k: nat): (r: seq<Row>)
    requires HasNumericKey(x, k) && SortedDesc(s, k)
    ensures SortedDesc(r, k)
    ensures multiset(r) == multiset(s) + multiset{x}
    ensures |r| == |s| + 1
    ensures r[0] == x || (s != [] && r[0] == s[0])
  {
    if s == [] || KeyOf(x, k) >= KeyOf(s[0], k) then
      ConsSorted(x, s, k);
      [x] + s
    else
      TailSorted(s, k);
      var rest := InsertDesc(x, s[1..], k);
      assert KeyOf(s[0], k) >= KeyOf(rest[0], k);
      ConsSorted(s[0], rest, k);
      assert s == [s[0]] + s[1..];
      assert multiset([s[0]] + rest) == multiset{s[0]} + multiset(s[1..]) + multiset{x};
      [s[0]] + rest
  }

  /** The rows in non-increasing order of the numeric key in column `k`:
      the same rows, each as often as before, with their labels. Ties are
      not promised any particular order. */
  function SortValuesDesc(s: seq<Row>, k: nat): (r: seq<Row>)
    requires NumericKeys(s, k)
    ensures SortedDesc(r, k)
    ensures multiset(r) == multiset(s)
    ensures |r| == |s|
  {
    if s == [] then []
    else
      assert s == [s[0]] + s[1..];
      InsertDesc(s[0], SortValuesDesc(s[1..], k), k)
  }

  // ---------------------------------------------------------------------
  // A frame updated in place

  class Frame {
    var columns: seq<string>
    var rows: seq<Row>

    function Value(): Table
      reads this
    {
      Table(columns, rows)
    }

    ghost predicate Valid()
      reads this
    {
      WellFormed(Value())
    }

    constructor (t: Table)
      requires WellFormed(t)
      ensures Valid() && Value() == t
    {
      columns := t.columns;
      rows := t.rows;
    }

    /** Drops the listed columns in place; on failure the frame is unchanged.
        Both fields are replaced in one step, so the update is atomic. */
    method Drop(labels: seq<string>) returns (o: Outcome)
      requires Valid()
      modifies this
      ensures Valid()
      ensures var d := DropColumns(old(Value()), labels);
        && (d.Ok? ==> o == Pass && Value() == d.value)
        && (d.Err? ==> o == Fail(d.error) && Value() == old(Value()))
    {
      var d := DropColumns(Value(), labels);
      match d
      case Err(e) =>
        o := Fail(e);
      case Ok(t) =>
        columns, rows := t.columns, t.rows;
        o := Pass;
    }

    /** Inserts a constant column in place; on failure the frame is unchanged.
        Both fields are replaced in one step, so the update is atomic. */
    method Insert(loc: nat, name: string, v: Cell) returns (o: Outcome)
      requires Valid()
      modifies this
      ensures Valid()
      ensures var d := InsertColumn(old(Value()), loc, name, v);
        && (d.Ok? ==> o == Pass && Value() == d.value)
        && (d.Err? ==> o == Fail(d.error) && Value() == old(Value()))
    {
      var d := InsertColumn(Value(), loc, name, v);
      match d
      case Err(e) =>
        o := Fail(e);
      case Ok(t) =>
        columns, rows := t.columns, t.rows;
        o := Pass;
    }
  }
}
