/**
 The wrangling step of the EU road-safety scraper: the parsed table of
 road deaths per country gets short column names, loses three columns,
 gains a constant `Year` column at position 1, and has every row but the
 last (the EU total) sorted by road deaths per million inhabitants, largest
 first, with the EU-total row put back at the end.
 */
module Wrangle {
  import opened Frames

  /** The long, footnoted header labels of the source table and their short names. */
  const RenameMap: map<string, string> := map[
    "Country" := "Country",
    "Area  (thousands of km  2  )  [24]" := "Area",
    "Population in 2018  [25]" := "Population",
    "GDP per capita in 2018  [26]" := "GDP per capita",
    "Population density  (inhabitants per km  2  ) in 2017  [27]" := "Population density",
    "Vehicle ownership  (per thousand inhabitants) in 2016  [28]" := "Vehicle ownership",
    "Total Road Deaths in 2018  [30]" := "Total road deaths",
    "Road deaths  per Million Inhabitants in 2018  [30]" := "Road Deaths per Million Inhabitants"
  ]

  /** The columns removed after renaming. */
  const DroppedLabels: seq<string> := [
    "Road Network Length  (in km) in 2013  [29]",
    "Number of People Killed  per Billion km  [30]",
    "Number of Seriously Injured in 2017/2018  [30]"
  ]

  const KeyLabel: string := "Road Deaths per Million Inhabitants"
  const YearLabel: string := "Year"
  const YearPosition: nat := 1
  const YearValue: Cell := Text("2018")

  /** The last row on its own (empty for an empty table). */
  function SummaryRow(rows: seq<Row>): (r: seq<Row>)
    ensures |rows| == 0 ==> r == []
    ensures |rows| > 0 ==> |r| == 1 && r[0] == rows[|rows| - 1]
  {
    if |rows| == 0 then [] else [rows[|rows| - 1]]
  }

  /** Every row but the last (empty for an empty table). */
  function AllButLast(rows: seq<Row>): (r: seq<Row>)
    ensures r + SummaryRow(rows) == rows
  {
    if |rows| == 0 then [] else rows[..|rows| - 1]
  }

  /** Sets the last row aside, sorts the others by the key column, largest
      first, and appends the set-aside row again. */
  function SortExceptLast(t: Table): (r: Result<Table>)
    requires WellFormed(t)
    ensures LocateKey(t.columns, KeyLabel).Err? ==> r == Err(LocateKey(t.columns, KeyLabel).error)
    ensures r.Ok? <==>
      LocateKey(t.columns, KeyLabel).Ok? && NumericKeys(AllButLast(t.rows), LocateKey(t.columns, KeyLabel).value)
    ensures r.Ok? ==> r.value.columns == t.columns && WellFormed(r.value) && |r.value.rows| == |t.rows|
    ensures LocateKey(t.columns, KeyLabel).Ok? && r.Err? ==> r == Err(KeyNotNumeric(KeyLabel))
    ensures r.Ok? && |t.rows| > 0 ==> r.value.rows[|t.rows| - 1] == t.rows[|t.rows| - 1]
    ensures r.Ok? ==> multiset(r.value.rows) == multiset(t.rows)
  {
    match LocateKey(t.columns, KeyLabel)
    case Err(e) => Err(e)
    case Ok(k) =>
      var head := AllButLast(t.rows);
      if !NumericKeys(head, k) then Err(KeyNotNumeric(KeyLabel))
      else
        assert AllWidth(t.rows, |t.columns|);
        JoinFacts(t.rows, SortValuesDesc(head, k), |t.columns|);
        Ok(Table(t.columns, SortValuesDesc(head, k) + SummaryRow(t.rows)))
  }

  /** All rows but the last come out sorted by the key column, largest
      first, and are the input's rows but the last, each as often as before. */
  lemma SortExceptLastOrders(t: Table)
    requires WellFormed(t)
    requires SortExceptLast(t).Ok?
    ensures var out, k := SortExceptLast(t).value, LocateKey(t.columns, KeyLabel).value;
      && SortedDesc(AllButLast(out.rows), k)
      && multiset(AllButLast(out.rows)) == multiset(AllButLast(t.rows))
  {
  }

  /** Appending the set-aside last row to a reordering of the other rows
      reorders the whole table and keeps that row last. */
  lemma JoinFacts(rows: seq<Row>, sorted: seq<Row>, width: nat)
    requires multiset(sorted) == multiset(AllButLast(rows))
    requires AllWidth(rows, width)
    ensures var out := sorted + SummaryRow(rows);
      && |out| == |rows|
      && AllButLast(out) == sorted
      && multiset(out) == multiset(rows)
      && (|rows| > 0 ==> out[|rows| - 1] == rows[|rows| - 1])
      && AllWidth(out, width)
  {
    var head := AllButLast(rows);
    var out := sorted + SummaryRow(rows);
    assert |sorted| == |multiset(sorted)| == |head|;
    if rows != [] {
      var last := rows[|rows| - 1];
      assert rows == head + [last];
      assert out == sorted + [last];
      assert out[..|out| - 1] == sorted;
      assert multiset(out) == multiset(sorted) + multiset{last};
    }
    PermutationKeepsWidth(rows, out, width);
  }

  /** Renaming, dropping and inserting the `Year` column. */
  function Reshape(t: Table): (r: Result<Table>)
    requires WellFormed(t)
    ensures r.Ok? ==> WellFormed(r.value) && |r.value.rows| == |t.rows|
    ensures r.Ok? ==> forall j :: 0 <= j < |t.rows| ==> r.value.rows[j].index == t.rows[j].index
  {
    var renamed := RenameColumns(t, RenameMap);
    match DropColumns(renamed, DroppedLabels)
    case Err(e) => Err(e)
    case Ok(d) =>
      DropColumnsAligned(renamed, DroppedLabels);
      if InsertColumn(d, YearPosition, YearLabel, YearValue).Ok? then
        InsertColumnCells(d, YearPosition, YearLabel, YearValue);
        InsertColumn(d, YearPosition, YearLabel, YearValue)
      else
        InsertColumn(d, YearPosition, YearLabel, YearValue)
  }

  /** The table the wrangling step returns, or the error it raises. */
  function Wrangled(t: Table): (r: Result<Table>)
    requires WellFormed(t)
    ensures r.Ok? ==> WellFormed(r.value) && |r.value.rows| == |t.rows|
  {
    match Reshape(t)
    case Err(e) => Err(e)
    case Ok(p) => SortExceptLast(p)
  }

  /** The wrangling step as the source runs it: a renamed copy of the
      frame, dropped from and inserted into in place, then split, sorted
      and re-joined. */
  method WrangleDataFrame(t: Table) returns (r: Result<Table>)
    requires WellFormed(t)
    ensures r == Wrangled(t)
  {
    var df := new Frame(RenameColumns(t, RenameMap));
    var o := df.Drop(DroppedLabels);
    if o.Fail? {
      return Err(o.error);
    }
    o := df.Insert(YearPosition, YearLabel, YearValue);
    if o.Fail? {
      return Err(o.error);
    }
    r := SortExceptLast(df.Value());
  }

  // ---------------------------------------------------------------------
  // Properties of the wrangled table

  /** Renaming neither produces nor removes a label that is dropped afterwards. */
  lemma RenameKeepsDropLabels(t: Table)
    ensures forall x :: x in DroppedLabels ==> (x in RenameColumns(t, RenameMap).columns <==> x in t.columns)
  {
  }

  /** No long label survives renaming: the only label the map sends to
      itself is `Country`. */
  lemma RenameLeavesNoLongLabel(t: Table)
    ensures forall c :: c in RenameColumns(t, RenameMap).columns ==> c !in RenameMap || c == "Country"
  {
  }

  /** A table lacking any of the three dropped columns is refused, with the
      missing labels. */
  lemma WrangledRefusesMissingDrop(t: Table)
    requires WellFormed(t)
    requires exists x :: x in DroppedLabels && x !in t.columns
    ensures Wrangled(t) == Err(ColumnsNotFound(Missing(DroppedLabels, t.columns)))
  {
    RenameKeepsDropLabels(t);
    MissingDependsOnMembership(DroppedLabels, RenameColumns(t, RenameMap).columns, t.columns);
  }

  lemma {:induction false} MissingDependsOnMembership(labels: seq<string>, c1: seq<string>, c2: seq<string>)
    requires forall x :: x in labels ==> (x in c1 <==> x in c2)
    ensures Missing(labels, c1) == Missing(labels, c2)
    decreases |labels|
  {
    if labels != [] {
      MissingDependsOnMembership(labels[1..], c1, c2);
    }
  }

  /** After the insert, `Year` is column 1 and holds "2018" in every row;
      it was not a column before. */
  lemma ReshapeYear(t: Table)
    requires WellFormed(t)
    requires Reshape(t).Ok?
    ensures var p := Reshape(t).value;
      && |p.columns| >= 2
      && p.columns[1] == YearLabel
      && (forall j :: 0 <= j < |p.rows| ==> p.rows[j].cells[1] == YearValue)
      && YearLabel !in RenameColumns(t, RenameMap).columns
  {
    var r := RenameColumns(t, RenameMap);
    var d := DropColumns(r, DroppedLabels).value;
    assert Reshape(t) == InsertColumn(d, YearPosition, YearLabel, YearValue);
    InsertColumnCells(d, YearPosition, YearLabel, YearValue);
    DropColumnsKeeps(r, DroppedLabels);
  }

  /** The columns left by the drop, in their input order. */
  function KeptColumns(t: Table): seq<string> {
    var renamed := RenameColumns(t, RenameMap).columns;
    Select(renamed, KeptIndices(renamed, DroppedLabels))
  }

  /** After the insert the columns are the renamed input columns that are not
      dropped, in their order, with `Year` put in at position 1; so no
      dropped label remains and every renamed column not dropped is there. */
  lemma ReshapeColumns(t: Table)
    requires WellFormed(t)
    requires Reshape(t).Ok?
    ensures var p, d := Reshape(t).value, KeptColumns(t);
      && |d| >= 1
      && p.columns == d[..1] + [YearLabel] + d[1..]
      && (forall c :: c in p.columns ==> c !in DroppedLabels)
      && (forall c :: c in RenameColumns(t, RenameMap).columns && c !in DroppedLabels ==> c in p.columns)
      && (forall c :: c in p.columns && c != YearLabel ==> c in RenameColumns(t, RenameMap).columns)
  {
    var r := RenameColumns(t, RenameMap);
    var d := DropColumns(r, DroppedLabels).value;
    assert Reshape(t) == InsertColumn(d, YearPosition, YearLabel, YearValue);
    assert d.columns == KeptColumns(t);
    InsertColumnShifts(d, YearPosition, YearLabel, YearValue);
    DropColumnsKeeps(r, DroppedLabels);
  }

  /** In the wrangled table `Year` is column 1 and holds "2018" in every row. */
  lemma WrangledYear(t: Table)
    requires WellFormed(t)
    ensures Wrangled(t).Ok? ==>
      var out := Wrangled(t).value;
      && |out.columns| >= 2
      && out.columns[1] == YearLabel
      && (forall j :: 0 <= j < |out.rows| ==> out.rows[j].cells[1] == YearValue)
  {
    if Wrangled(t).Ok? {
      ReshapeYear(t);
      SortExceptLastKeepsYear(Reshape(t).value);
    }
  }

  /** Sorting keeps `Year` at column 1 with "2018" in every row. */
  lemma SortExceptLastKeepsYear(p: Table)
    requires WellFormed(p) && SortExceptLast(p).Ok?
    requires |p.columns| >= 2 && p.columns[1] == YearLabel
    requires forall j :: 0 <= j < |p.rows| ==> p.rows[j].cells[1] == YearValue
    ensures var out := SortExceptLast(p).value;
      && |out.columns| >= 2
      && out.columns[1] == YearLabel
      && (forall j :: 0 <= j < |out.rows| ==> out.rows[j].cells[1] == YearValue)
  {
    SortExceptLastKeepsCell(p, 1, YearValue);
  }

  /** The wrangled table has the columns of the reshaped one: the renamed
      input columns that are not dropped, in order, with `Year` at position 1. */
  lemma WrangledColumns(t: Table)
    requires WellFormed(t)
    ensures Wrangled(t).Ok? ==>
      var out, d := Wrangled(t).value, KeptColumns(t);
      && |d| >= 1
      && out.columns == d[..1] + [YearLabel] + d[1..]
      && (forall c :: c in out.columns ==> c !in DroppedLabels)
      && (forall c :: c in RenameColumns(t, RenameMap).columns && c !in DroppedLabels ==> c in out.columns)
      && (forall c :: c in out.columns && c != YearLabel ==> c in RenameColumns(t, RenameMap).columns)
  {
    if Wrangled(t).Ok? {
      var p := Reshape(t).value;
      assert Wrangled(t).value.columns == p.columns;
      ReshapeColumns(t);
    }
  }

  /** A value every row holds in one column is still in every row after sorting. */
  lemma SortExceptLastKeepsCell(p: Table, i: nat, v: Cell)
    requires WellFormed(p)
    requires SortExceptLast(p).Ok?
    requires forall j :: 0 <= j < |p.rows| ==> i < |p.rows[j].cells| && p.rows[j].cells[i] == v
    ensures var out := SortExceptLast(p).value;
      forall j :: 0 <= j < |out.rows| ==> i < |out.rows[j].cells| && out.rows[j].cells[i] == v
  {
    PermutationKeepsCell(p.rows, SortExceptLast(p).value.rows, i, v);
  }

  /** The last output row is the reshaped last input row, whatever its key. */
  lemma WrangledSummaryLast(t: Table)
    requires WellFormed(t)
    ensures Wrangled(t).Ok? && |t.rows| > 0 ==>
      var out := Wrangled(t).value;
      && |out.rows| == |t.rows|
      && out.rows[|t.rows| - 1] == Reshape(t).value.rows[|t.rows| - 1]
      && out.rows[|t.rows| - 1].index == t.rows[|t.rows| - 1].index
  {
  }

  /** The output has as many rows as the input; all rows but the last are
      sorted by the key column, largest first, and are the reshaped rows but
      the last, each as often as before. */
  lemma WrangledPrefixSorted(t: Table)
    requires WellFormed(t)
    ensures Wrangled(t).Ok? ==>
      var out := Wrangled(t).value;
      && |out.rows| == |t.rows|
      && LocateKey(out.columns, KeyLabel).Ok?
      && SortedDesc(AllButLast(out.rows), LocateKey(out.columns, KeyLabel).value)
      && multiset(AllButLast(out.rows)) == multiset(AllButLast(Reshape(t).value.rows))
  {
    if Wrangled(t).Ok? {
      SortExceptLastOrders(Reshape(t).value);
    }
  }

  /** The index labels of a sequence of rows. */
  function Indices(s: seq<Row>): (r: seq<int>)
    ensures |r| == |s|
  {
    seq(|s|, i requires 0 <= i < |s| => s[i].index)
  }

  lemma RemoveAt(b: seq<Row>, p: nat)
    requires p < |b|
    ensures multiset(b[..p] + b[p + 1..]) == multiset(b) - multiset{b[p]}
  {
    assert b == b[..p] + [b[p]] + b[p + 1..];
  }

  lemma IndicesRemoveAt(b: seq<Row>, p: nat)
    requires p < |b|
    ensures multiset(Indices(b)) == multiset(Indices(b[..p] + b[p + 1..])) + multiset{b[p].index}
  {
    var ib := Indices(b);
    assert ib == ib[..p] + [ib[p]] + ib[p + 1..];
    assert Indices(b[..p] + b[p + 1..]) == ib[..p] + ib[p + 1..];
  }

  lemma RemoveHead(a: seq<Row>, b: seq<Row>, p: nat)
    requires multiset(a) == multiset(b)
    requires a != [] && p < |b| && b[p] == a[0]
    ensures multiset(a[1..]) == multiset(b[..p] + b[p + 1..])
  {
    RemoveAt(b, p);
    assert a == [a[0]] + a[1..];
  }

  /** Reordering rows reorders their index labels the same way. */
  lemma {:induction false} IndicesPermute(a: seq<Row>, b: seq<Row>)
    requires multiset(a) == multiset(b)
    ensures multiset(Indices(a)) == multiset(Indices(b))
    decreases |a|
  {
    if a == [] {
      assert |b| == |multiset(b)| == 0;
    } else {
      assert a[0] in multiset(b);
      var p :| 0 <= p < |b| && b[p] == a[0];
      RemoveHead(a, b, p);
      IndicesPermute(a[1..], b[..p] + b[p + 1..]);
      IndicesRemoveAt(b, p);
      assert Indices(a) == [a[0].index] + Indices(a[1..]);
    }
  }

  /** No row is lost or duplicated: the output carries exactly the input's
      index labels, each as often as in the input. */
  lemma WrangledKeepsIndices(t: Table)
    requires WellFormed(t)
    ensures Wrangled(t).Ok? ==> multiset(Indices(Wrangled(t).value.rows)) == multiset(Indices(t.rows))
  {
    if Wrangled(t).Ok? {
      ReshapeKeepsIndices(t);
      SortExceptLastKeepsIndices(Reshape(t).value);
    }
  }

  lemma ReshapeKeepsIndices(t: Table)
    requires WellFormed(t)
    requires Reshape(t).Ok?
    ensures Indices(Reshape(t).value.rows) == Indices(t.rows)
  {
  }

  lemma SortExceptLastKeepsIndices(p: Table)
    requires WellFormed(p)
    requires SortExceptLast(p).Ok?
    ensures multiset(Indices(SortExceptLast(p).value.rows)) == multiset(Indices(p.rows))
  {
    IndicesPermute(SortExceptLast(p).value.rows, p.rows);
  }

  /** An empty table stays empty. */
  lemma WrangledEmpty(t: Table)
    requires WellFormed(t)
    requires t.rows == []
    ensures Wrangled(t).Ok? ==> Wrangled(t).value.rows == []
  {
  }

  /** Rows A (5), B (9) and the total (7), the total last: B, A, total. */
  lemma SortExceptLastExample()
    ensures
      var a := Row(0, [Text("A"), Num(5)]);
      var b := Row(1, [Text("B"), Num(9)]);
      var total := Row(2, [Text("EU-Total"), Num(7)]);
      SortExceptLast(Table(["Country", KeyLabel], [a, b, total]))
        == Ok(Table(["Country", KeyLabel], [b, a, total]))
  {
    var a := Row(0, [Text("A"), Num(5)]);
    var b := Row(1, [Text("B"), Num(9)]);
    var total := Row(2, [Text("EU-Total"), Num(7)]);
    var cols := ["Country", KeyLabel];
    assert cols[1..] == [KeyLabel];
    assert LocateKey(cols[1..], KeyLabel) == Ok(0);
    assert LocateKey(cols, KeyLabel) == Ok(1);
    assert AllButLast([a, b, total]) == [a, b];
    assert [a, b][1..] == [b];
    assert SortValuesDesc([b], 1) == [b];
    assert InsertDesc(a, [], 1) == [a];
    assert InsertDesc(a, [b], 1) == [b, a];
    assert SortValuesDesc([a, b], 1) == [b, a];
    assert NumericKeys([a, b], 1);
    assert SummaryRow([a, b, total]) == [total];
    assert [b, a] + [total] == [b, a, total];
  }
}
