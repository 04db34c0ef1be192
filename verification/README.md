# EU road-safety table wrangling, modelled in Dafny

The scraper downloads the Wikipedia article "Road safety in Europe". It parses
the sortable table of road deaths per country and writes a cleaned CSV. This
project models the cleaning step, `wrangle_pd_dataframe`, and proves what it
does to the table:

1. The long, footnoted header labels are renamed to short names. Other labels
   are left alone.
2. Three columns are dropped by exact label. If any of them is missing, the
   step fails.
3. A constant `Year` column holding `"2018"` is inserted at column position 1.
4. The last row (the EU total) is set aside. The other rows are sorted by
   `Road Deaths per Million Inhabitants`, largest first. The EU-total row is
   then appended again.

`frames.dfy` (module `Frames`) models the data-frame operations this step uses.
A `Table` is a list of column labels plus rows. Each `Row` keeps the index
label it got when the page was parsed, plus one `Cell` per column. A cell is
`Num` or `Text`. Renaming and sorting return new values, so they are functions.
Dropping and inserting change the frame in place, so they are methods of the
class `Frame`. Each method is tied to the function that says what it computes.
Errors that the frame library raises are `Err` results:
- a dropped label that is absent;
- an inserted label that already exists;
- an insert position past the last column;
- a sort key that is absent, not unique or not numeric.

`wrangle.dfy` (module `Wrangle`) holds the constants of the step and the split,
sort and re-join. It also holds `Wrangled`, the specification of the whole
step, and the method `WrangleDataFrame`, which runs the step as the source does
and is proved equal to `Wrangled`. The lemmas about `Wrangled` state the
invariants of the output table.

The sort is specified by what it promises: the keys do not increase and the
rows are a permutation of the input rows. The order of rows with equal keys is
not part of any contract. The source sorts with the library default
(quicksort), which is not stable, so rows with equal keys may come out in any
order.

## Model

| member | source | states |
|---|---|---|
| Frames.RenameColumns | main.py:44-54 | every label in the map gets its short name; every other label is kept; column count, column order and all rows are unchanged |
| Wrangle.RenameKeepsDropLabels | main.py:44-59 | renaming neither creates nor removes any of the three dropped labels, so the drop sees them exactly as the parsed table has them |
| Wrangle.RenameLeavesNoLongLabel | main.py:44-54 | after renaming, no label is a long label of the map, except `Country`, which maps to itself |
| Frames.DropColumns | main.py:56-59 | succeeds iff every listed label is a column; otherwise fails with exactly the missing labels; on success the table stays well formed with the same row count |
| Frames.DropColumnsKeeps | main.py:56-59 | the columns left by a drop are exactly the input columns that are not listed; every occurrence of a listed label is gone |
| Frames.KeptFrom | main.py:56-59 | the positions that survive a drop, in strictly increasing order: exactly the positions whose label is not listed |
| Frames.DropColumnsAligned | main.py:56-59 | column k of the result is the k-th kept input column, in the input's order; every row keeps its index label and the cells under the kept columns |
| Frames.Frame.Drop | main.py:56-59 | the in-place drop: the frame becomes the dropped table, or stays unchanged and the error is reported |
| Frames.InsertColumn | main.py:61 | fails if the label already exists, or else if the position is past the last column; otherwise it gives one column more, the new label at the position, the same row count, and a well-formed table |
| Frames.InsertColumnShifts | main.py:61 | the columns before the position stay put, those from it on move one to the right, and no other label appears |
| Frames.InsertColumnCells | main.py:61 | every row keeps its index label, holds the constant at the position, and has its other cells shifted like the columns |
| Frames.Frame.Insert | main.py:61 | the in-place insert: the frame becomes the table with the column inserted, or stays unchanged and the error is reported |
| Frames.LocateKey | main.py:64 | finds the one column carrying the sort key; fails if the key is absent, or if several columns carry it |
| Frames.SortValuesDesc | main.py:64 | the sorted rows have non-increasing numeric keys and are a permutation of the input rows |
| Wrangle.SummaryRow | main.py:63 | the set-aside part is empty for an empty table, and otherwise exactly the last row |
| Wrangle.AllButLast | main.py:64 | the rows to sort, followed by the set-aside part, give back the whole table, so together the two parts split the table with no row lost |
| Wrangle.SortExceptLast | main.py:63-65 | fails iff the key column is absent, not unique, or holds text in a row other than the last, each with its own error; otherwise it keeps the columns and the row count, keeps the last row last and unchanged, and reorders the rows without losing, duplicating or altering any |
| Wrangle.SortExceptLastOrders | main.py:63-65 | all rows but the last come out with non-increasing keys and are a permutation of the input's rows but the last |
| Wrangle.SortExceptLastKeepsCell | main.py:61-65 | a value that every row holds in one column is still held by every row after the sort and re-join |
| Wrangle.Reshape | main.py:44-61 | after rename, drop and insert the table is well formed, has the same row count, and row j keeps the index label of input row j |
| Wrangle.Wrangled | main.py:38-66 | the whole step as a value (rename, drop, insert, then split, sort and re-join); a successful result is a well-formed table with exactly as many rows as the input |
| Wrangle.WrangleDataFrame | main.py:38-66 | running the step on a renamed copy, with the in-place drop and insert, then split, sort and re-join, gives exactly `Wrangled(t)`, including its error cases |
| Wrangle.WrangledRefusesMissingDrop | main.py:56-59 | an input table that lacks any dropped column is refused with the missing labels |
| Wrangle.ReshapeYear | main.py:44-61 | after the insert, `Year` is column 1 and holds "2018" in every row, and no renamed input column was already labelled `Year` |
| Wrangle.ReshapeColumns | main.py:44-61 | after the insert the columns are exactly the renamed input columns that are not dropped, in their input order, with `Year` put in at position 1; so no dropped label remains, every undropped renamed column is present, and every column but `Year` is a renamed input column |
| Wrangle.WrangledYear | main.py:61-65 | in the final table `Year` is column 1 and holds "2018" in every row, the EU-total row included |
| Wrangle.SortExceptLastKeepsYear | main.py:61-65 | the split, sort and re-join keep `Year` at column 1 with "2018" in every row |
| Wrangle.WrangledColumns | main.py:44-65 | the final table's columns are exactly the undropped renamed input columns in their input order, with `Year` at position 1: no dropped label, every undropped renamed column, nothing else |
| Wrangle.WrangledSummaryLast | main.py:63-65 | the output's last row is the input's last row after reshaping, with its index label, whatever its key value |
| Wrangle.WrangledPrefixSorted | main.py:63-65 | the row count is conserved; all rows but the last have non-increasing keys and are a permutation of the reshaped rows but the last |
| Wrangle.IndicesPermute | main.py:64 | rows that are a permutation of each other carry the same index labels, each as often |
| Wrangle.ReshapeKeepsIndices | main.py:44-61 | renaming, dropping and inserting leave the sequence of index labels unchanged |
| Wrangle.SortExceptLastKeepsIndices | main.py:63-65 | the sort and re-join keep every index label, each as often as before |
| Wrangle.WrangledKeepsIndices | main.py:38-66 | the output carries exactly the input's index labels, each as often as in the input: no row is lost or duplicated |
| Wrangle.WrangledEmpty | main.py:63-65 | an empty table stays empty |
| Wrangle.SortExceptLastExample | main.py:63-65 | rows A (5), B (9) and the EU total (7) come out as B, A, EU total |

## Left out

- `get_data` (main.py:10-24): the HTTP fetch and the HTML parser are network I/O and a foreign library. Its only rule is that it returns nothing unless the status is 200.
- `get_data_table` (main.py:27-35): locating the table and parsing it are opaque third-party parsers. The model starts from an already-parsed `Table`.
- `create_csv` (main.py:69-85): directory creation, CSV writing and logging are file-system I/O.
- Cell values are integers or text. Floating-point cells and NaN placement in the sort are not modelled.
- Wrangle.SortExceptLast: a text cell in the key column of a sorted row is modelled as an error. The frame library raises this error only when text and numbers are mixed; a key column that is entirely text would be sorted alphabetically.
- Frames.SortValuesDesc: the order of rows with equal keys is not specified, because the library's default sort is not stable.
- The frame library's `append` (main.py:65) is no longer available in newer versions of the library. It is modelled as sequence concatenation.
- Index labels are integers, as the HTML-table parser assigns them (0, 1, 2, …).
