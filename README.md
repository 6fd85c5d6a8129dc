# A verified model of Tablesaw's plain text column

This project models `BackingTextColumn`, Tablesaw's plain, uncompressed, in-memory
column of free-form text. The column keeps one mutable list of strings, one entry per
row. A missing row is not a flag: it is the reserved value `""`, the missing-value
indicator of text columns. Everything the column offers is built on that list:

- reading and writing rows;
- appending single values, objects, lists and other columns;
- counting and removing missing rows;
- bulk updates driven by a row selection;
- membership queries that return selections;
- copies, distinct values, lag/lead windows and in-place sorting.

The Dafny model keeps that form. `TextColumns.BackingTextColumn` is a class with the
fields `name` and `values: seq<string>`. Methods that change the column in place name
it in `modifies` and state the new `values` in terms of the old. Methods that build a
new column return a fresh object and state its rows. Java exceptions are results
(`Result`, `Outcome` with an `Error`). Java `null` arguments of type `String` are
`Option<string>` values. Java `int` is used where its wrap-around matters (`Int32`,
`Negate32`).

Modules:

- `Wrappers`: `Option`, `Result`, `Outcome`.
- `Selections`: the contract the column relies on from a row selection. It is a set of
  row indices with `Add`, `AddRange` and `AndNot`, iterated in ascending order (`Ascending`).
- `TextOrder`: `String.compareTo` (`CompareTo`), the facts that make it a total order,
  and an insertion sort that specifies sorting in either direction.
- `Rows`: what the operations compute, written over a plain sequence of rows.
  It defines the missing indicator `MISSING`, counts (`Occurrences`), the filter
  `NonMissing`, membership `Matching` and the lag window `Lagged`.
- `TextColumns`: the column class and the static `create` methods.
- `AppendNullFinding`: the rows exactly as `append(String)` stores them (see Findings).

Two behaviours need a word, because the column model does not reproduce the code
literally in the second:

- `lag(n)` starts from an empty copy and only appends, so the result has
  max(size, |n|) rows rather than the column's size (lines 226-251). The model
  follows the code: `Lagged` states exactly this window.
- `append(String)` adds its argument unchanged, so a null argument becomes a null
  row (lines 431-434). Everywhere else the column replaces null with the missing
  indicator: `set(int, String)` at lines 271-273 and `appendObj` at lines 439-441.
  `AppendNullFinding` models the code as written and shows what goes wrong (see
  Findings). The column model uses the corrected `Append`, which stores the missing
  indicator for null, and so do `CreateFrom` and `AddAll`, which append through it.

## Model

| member | source | states |
|---|---|---|
| TextColumns.BackingTextColumn.constructor | core/src/main/java/tech/tablesaw/api/BackingTextColumn.java:100-102 | `create(name)` yields a column with that name and no rows |
| TextColumns.CreateFrom | core/src/main/java/tech/tablesaw/api/BackingTextColumn.java:69-124 | the array and collection constructors (lines 69-88) and the `create` overloads over them and over a stream (lines 104-110, 120-124) produce exactly the given strings in order, each null stored as the missing indicator (corrected, see Findings) |
| TextColumns.CreateWithSize | core/src/main/java/tech/tablesaw/api/BackingTextColumn.java:112-118 | `create(name, size)` yields exactly `size` rows, all equal to the missing indicator; a negative size fails with the list's "Illegal Capacity" argument error |
| TextColumns.ValueIsMissing | core/src/main/java/tech/tablesaw/api/BackingTextColumn.java:90-92 | a value is missing exactly when it is the empty string |
| TextColumns.NatToString | core/src/main/java/tech/tablesaw/api/BackingTextColumn.java:229 | the decimal digits of a natural number, without leading zeros, reading back as that number |
| TextColumns.IntToString | core/src/main/java/tech/tablesaw/api/BackingTextColumn.java:229 | how string concatenation writes an `int` in the names "lag(n)" and "lead(n)": a minus sign exactly for negative numbers, then the digits of the magnitude without leading zeros, reading back as the number |
| TextColumns.Negate32 | core/src/main/java/tech/tablesaw/api/BackingTextColumn.java:219 | Java's `-n`: true negation for every `int` except the most negative one, which is its own negation |
| TextColumns.BackingTextColumn.Size | core/src/main/java/tech/tablesaw/api/BackingTextColumn.java:163-166 | the size is the number of rows, missing rows included |
| TextColumns.BackingTextColumn.IsEmpty | core/src/main/java/tech/tablesaw/api/BackingTextColumn.java:334-337 | a column is empty exactly when its size is 0 |
| TextColumns.BackingTextColumn.Get | core/src/main/java/tech/tablesaw/api/BackingTextColumn.java:175-178 | an index in [0, size) reads that row; any other index is an IndexOutOfBounds error, never clamped |
| TextColumns.BackingTextColumn.IsMissing | core/src/main/java/tech/tablesaw/api/BackingTextColumn.java:127-130 | `isMissing(i)` holds exactly when `get(i)` is the missing indicator; an out-of-range index is the same error as `get` |
| TextColumns.BackingTextColumn.Append | core/src/main/java/tech/tablesaw/api/BackingTextColumn.java:430-434 | size grows by exactly one and earlier rows are unchanged; the new last row reads back the value, or the missing indicator for null, and `isMissing` then holds for null (corrected, see Findings) |
| TextColumns.BackingTextColumn.AppendMissing | core/src/main/java/tech/tablesaw/api/BackingTextColumn.java:94-98 | one missing row is added at the end |
| TextColumns.BackingTextColumn.AppendObj | core/src/main/java/tech/tablesaw/api/BackingTextColumn.java:437-447 | null appends one missing row and a String appends itself; any other class fails with "Cannot append <class> to TextColumn" and leaves the column unchanged |
| TextColumns.BackingTextColumn.AddAll | core/src/main/java/tech/tablesaw/api/BackingTextColumn.java:306-311 | the list's strings are appended in order after the existing rows, each null stored as the missing indicator (corrected, see Findings) |
| TextColumns.BackingTextColumn.AppendColumn | core/src/main/java/tech/tablesaw/api/BackingTextColumn.java:370-384 | a TEXT or STRING column's rows are appended in index order, so size grows by its size; any other type fails with both names and both types, and nothing is appended |
| TextColumns.BackingTextColumn.Set | core/src/main/java/tech/tablesaw/api/BackingTextColumn.java:269-276 | for an index in range, that row becomes the value (the missing indicator for null), reads back as such, and size and every other row stay the same; otherwise an IndexOutOfBounds error and no change |
| TextColumns.BackingTextColumn.SetMissing | core/src/main/java/tech/tablesaw/api/BackingTextColumn.java:296-299 | an in-range row becomes the missing indicator and nothing else changes; an out-of-range index is an error with no change |
| TextColumns.BackingTextColumn.SetSelection | core/src/main/java/tech/tablesaw/api/BackingTextColumn.java:260-266 | afterwards every selected existing row holds the new value, unselected rows and the size are unchanged, and it fails exactly when some selected row is beyond the end; ascending iteration makes the partial-failure state this same state |
| Rows.AssignedByPrefix | core/src/main/java/tech/tablesaw/api/BackingTextColumn.java:261-265 | once the ascending walk over a selection has either finished or reached a row beyond the end, it has set exactly the selected rows that exist |
| Selections.EnumeratedBelow | core/src/main/java/tech/tablesaw/api/BackingTextColumn.java:262 | the ascending walk over a selection finishes without reaching a row beyond `bound` exactly when every selected row is below `bound` |
| TextColumns.BackingTextColumn.Clear | core/src/main/java/tech/tablesaw/api/BackingTextColumn.java:211-214 | afterwards the size is 0 |
| TextColumns.BackingTextColumn.CountMissing | core/src/main/java/tech/tablesaw/api/BackingTextColumn.java:387-396 | the counting scan returns the number of missing rows, which is also the number of indices at which `isMissing` holds |
| TextColumns.BackingTextColumn.EmptyCopy | core/src/main/java/tech/tablesaw/api/BackingTextColumn.java:133-138 | a new column with the same name and no rows |
| TextColumns.BackingTextColumn.EmptyCopyWithSize | core/src/main/java/tech/tablesaw/api/BackingTextColumn.java:141-144 | a new column with the same name and `rowSize` missing rows; a negative size fails with the same "Illegal Capacity" argument error as `create(name, size)` |
| TextColumns.BackingTextColumn.RemoveMissing | core/src/main/java/tech/tablesaw/api/BackingTextColumn.java:399-408 | a new column with exactly the non-missing rows in original order; its size is size minus the missing count, it holds every non-missing value as often as the source does, and the source is unchanged |
| TextColumns.BackingTextColumn.Copy | core/src/main/java/tech/tablesaw/api/BackingTextColumn.java:358-367 | a new column with the same name holding the same rows |
| TextColumns.BackingTextColumn.AsSet | core/src/main/java/tech/tablesaw/api/BackingTextColumn.java:417-420 | the set holds exactly the values that occur in some row |
| TextColumns.BackingTextColumn.CountUnique | core/src/main/java/tech/tablesaw/api/BackingTextColumn.java:279-282 | the number of distinct values is at most the size, and positive for a non-empty column |
| TextColumns.BackingTextColumn.Unique | core/src/main/java/tech/tablesaw/api/BackingTextColumn.java:344-348 | a new column named "<name> Unique values" holds each value of the source exactly once and nothing else, in no particular order, so it has `countUnique()` rows |
| TextColumns.BackingTextColumn.AsList | core/src/main/java/tech/tablesaw/api/BackingTextColumn.java:188-191 | the list has one entry per row, equal to what `get` returns |
| TextColumns.BackingTextColumn.AsObjectArray | core/src/main/java/tech/tablesaw/api/BackingTextColumn.java:501-508 | a new array of length size whose entries are the rows in order |
| TextColumns.BackingTextColumn.Contains | core/src/main/java/tech/tablesaw/api/BackingTextColumn.java:290-293 | true exactly when some row reads back the given string |
| TextColumns.BackingTextColumn.FirstIndexOf | core/src/main/java/tech/tablesaw/api/BackingTextColumn.java:495-498 | -1 exactly when `contains` is false; otherwise an index whose row is the value and before which no row is |
| Rows.IndexOf | core/src/main/java/tech/tablesaw/api/BackingTextColumn.java:496-498 | the list search returns -1 exactly when the value is absent, else the first position holding it |
| TextColumns.BackingTextColumn.IsIn | core/src/main/java/tech/tablesaw/api/BackingTextColumn.java:450-475 | selects exactly the indices in [0, size) whose row is among the given strings, duplicates among the arguments making no difference |
| TextColumns.BackingTextColumn.IsNotIn | core/src/main/java/tech/tablesaw/api/BackingTextColumn.java:478-493 | the full range minus `isIn` is exactly the set of indices whose row is not among the strings |
| Rows.ComplementPartitions | core/src/main/java/tech/tablesaw/api/BackingTextColumn.java:478-493 | `isIn` and `isNotIn` partition [0, size): the difference taken against the full range equals the negated scan, and every row is in exactly one of the two |
| TextColumns.BackingTextColumn.CountOccurrences | core/src/main/java/tech/tablesaw/api/BackingTextColumn.java:545-548 | the size of the selection of equal rows equals the number of rows equal to the value, and its multiplicity among the rows |
| Rows.MatchingCount | core/src/main/java/tech/tablesaw/api/BackingTextColumn.java:545-548 | the number of indices selected as equal to a value equals the count a front-to-back scan finds |
| Rows.OccurrencesIsMultiplicity | core/src/main/java/tech/tablesaw/api/BackingTextColumn.java:387-396 | the scan's count of a value is its multiplicity in the rows |
| Rows.NonMissingContents | core/src/main/java/tech/tablesaw/api/BackingTextColumn.java:399-408 | filtering out missing rows removes exactly as many rows as are missing and keeps every other value with its multiplicity |
| Rows.DistinctBound | core/src/main/java/tech/tablesaw/api/BackingTextColumn.java:279-282 | a column never has more distinct values than rows |
| TextColumns.BackingTextColumn.Where | core/src/main/java/tech/tablesaw/api/BackingTextColumn.java:351-354 | a new column with the selected rows gathered in ascending selection order; it fails exactly when some selected row is beyond the end |
| TextColumns.BackingTextColumn.Lag | core/src/main/java/tech/tablesaw/api/BackingTextColumn.java:225-251 | a new column named "<name> lag(n)": row i is source row i-n where that exists and missing otherwise, with max(size, \|n\|) rows; the source is unchanged; for the most negative `int` the wrapped `-n` makes the first read fail |
| TextColumns.BackingTextColumn.FillLagged | core/src/main/java/tech/tablesaw/api/BackingTextColumn.java:231-240 | for n >= 0 the loops append n missing rows and then source rows until the break, which is exactly the lag window |
| TextColumns.BackingTextColumn.FillLed | core/src/main/java/tech/tablesaw/api/BackingTextColumn.java:241-248 | for n < 0 the loops append source rows from -n on and then -n missing rows, which is the lag window; they fail only when -n wraps |
| TextColumns.BackingTextColumn.CopyRowsFrom | core/src/main/java/tech/tablesaw/api/BackingTextColumn.java:242-244 | appends the rows from `start` to the end after whatever the target column already holds, none when `start` is past the end; a negative `start` fails with IndexOutOfBounds at the first read and appends nothing |
| Rows.LaggedAsBuilt | core/src/main/java/tech/tablesaw/api/BackingTextColumn.java:231-248 | the pointwise window equals both loop constructions: n missing rows then source[0..size-n) for n >= 0, and source[-n..) then -n missing rows for n < 0 |
| Rows.LagThenLead | core/src/main/java/tech/tablesaw/api/BackingTextColumn.java:217-251 | leading a lag by n back by n restores the first size-n rows and leaves the last n missing: not an inverse, because lag truncates |
| TextColumns.BackingTextColumn.Lead | core/src/main/java/tech/tablesaw/api/BackingTextColumn.java:217-222 | `lead(n)` has exactly the rows of `lag(-n)`, including its failure for the most negative `int`, and is named "<name> lead(n)" |
| TextColumns.BackingTextColumn.SortAscending | core/src/main/java/tech/tablesaw/api/BackingTextColumn.java:147-150 | the rows end up in natural string order and are a permutation of the old rows |
| TextColumns.BackingTextColumn.SortDescending | core/src/main/java/tech/tablesaw/api/BackingTextColumn.java:153-156 | the rows end up in reverse natural order and are a permutation of the old rows |
| TextOrder.SortBySortsAndPermutes | core/src/main/java/tech/tablesaw/api/BackingTextColumn.java:147-156 | the list sort, in either direction, yields a sorted permutation of its input |
| TextOrder.CompareToAntisymmetric | core/src/main/java/tech/tablesaw/api/BackingTextColumn.java:48-53 | swapping the two strings negates `compareTo` |
| TextOrder.CompareToZero | core/src/main/java/tech/tablesaw/api/BackingTextColumn.java:48-53 | `compareTo` is zero exactly for equal strings |
| TextOrder.CompareToTransitive | core/src/main/java/tech/tablesaw/api/BackingTextColumn.java:147-150 | "not greater than" under `compareTo` is transitive, as sorting needs |
| TextColumns.BackingTextColumn.Equals | core/src/main/java/tech/tablesaw/api/BackingTextColumn.java:63-67 | two in-range rows are equal exactly when their strings are; otherwise the first bad index is the error |
| TextColumns.BackingTextColumn.CompareRows | core/src/main/java/tech/tablesaw/api/BackingTextColumn.java:48-53 | the row comparator is zero exactly when `equals` holds, is negated by swapping the rows, and is non-positive exactly when the first row may precede the second in ascending order |
| Selections.Selection.constructor | core/src/main/java/tech/tablesaw/api/BackingTextColumn.java:454 | `new BitmapBackedSelection()` selects no row |
| Selections.Selection.Add | core/src/main/java/tech/tablesaw/api/BackingTextColumn.java:457 | adds exactly the one row |
| Selections.Selection.AddRange | core/src/main/java/tech/tablesaw/api/BackingTextColumn.java:481 | adds exactly the rows of [start, end) |
| Selections.Selection.AndNot | core/src/main/java/tech/tablesaw/api/BackingTextColumn.java:482 | removes exactly the rows of the other selection |
| Selections.Selection.ToArray | core/src/main/java/tech/tablesaw/api/BackingTextColumn.java:262 | iteration hands out the selected rows in ascending order |
| Selections.AscendingEnumerates | core/src/main/java/tech/tablesaw/api/BackingTextColumn.java:262 | ascending iteration lists every selected row exactly once and nothing else |
| AppendNullFinding.AppendAsWritten | core/src/main/java/tech/tablesaw/api/BackingTextColumn.java:430-434 | as written, `append(String)` adds its argument unchanged, null included |
| AppendNullFinding.AppendNullIsNotMissing | core/src/main/java/tech/tablesaw/api/BackingTextColumn.java:127-130 | after the as-written `append(null)`, `isMissing` on the new row raises a NullPointerException and `countMissing` does not count the row |

## Left out

- `summary()` (lines 195-208) is not modelled. It builds a `Table` of `StringColumn`s, and those classes are not part of this model. It reports `size()` as "Count" and `countMissing()` as "Missing".
- `getDouble`, `asDoubleArray`, `asDoubleColumn` and `valueHash` are not modelled. They rest on Java's `String.hashCode` and on floating point.
- `asBytes` is not modelled: it encodes with the platform's default charset.
- Neither `appendCell` overload is modelled: both hand the text to a column parser that is not part of this model.
- `asStringColumn` is not modelled: the dictionary-backed `StringColumn` is not part of this model.
- `getDummies` and `getDictionary` are not modelled. One only throws UnsupportedOperationException; the other only returns null.
- The print formatter that `emptyCopy` copies is not modelled.
- `iterator()` is not a member of its own. Every loop over the column's rows reads `values` directly.
- `where` calls an inherited `subset`, and `countOccurrences` calls an inherited `isEqualTo`; neither is shown. They are modelled as a gather of the selected rows and as the number of equal rows.
- `TextColumnType.valueIsMissing` and `missingValueIndicator` are not shown. The model takes the indicator to be `""` and assumes `valueIsMissing` means equality with it.
- `setName` on the result of `lag` and `lead` is modelled as assigning the `name` field.
- Methods that return `this` for chaining return nothing, or only the error outcome.
- `append(Column)` raises an argument error whose message is formatted with `ColumnType.toString`, which is not shown. The model returns the two names and two types rather than the text.
- The row selection is modelled only by its contract: a set of natural numbers. Negative indices added to a bitmap are not modelled.
- A null argument to the queries (`contains`, `firstIndexOf`, `isIn`, `isNotIn`, `countOccurrences`) is not modelled. The corrected column never holds null, so such an argument would match no row.
- A null array, collection, column or selection argument, and the NullPointerException it raises, is not modelled.
- `compareTo` is modelled over Dafny characters (Unicode scalar values), not Java's UTF-16 code units. The two orders differ only for characters outside the Basic Multilingual Plane.
- Columns with more than 2^31-1 rows cannot exist in Java. The model does not bound the size.
- Whether `List.sort` is stable is not modelled: with equal strings it cannot be observed.
- `HashSet` iteration order is not modelled: `Unique` takes the distinct values in an arbitrary order.
- TextColumns.BackingTextColumn.SetSelection: on failure the contract says only that the error is an IndexOutOfBounds. It does not name the index; the code reports the smallest selected row beyond the end.
- TextColumns.BackingTextColumn.Where: on failure the contract says only that the error is an IndexOutOfBounds. It does not name the index.

## Findings

| source | as written | input that shows it | evidently intended | confidence | as-written member | corrected member |
|---|---|---|---|---|---|---|
| core/src/main/java/tech/tablesaw/api/BackingTextColumn.java:430-434 | `append(String)` adds its argument unchanged, so a null argument is stored as a null row. The constructors, `create` and `addAll` all go through it. | `append(null)`, then `isMissing(size() - 1)`: `get` returns null and `.equals` raises a NullPointerException. `countMissing()` does not count the row. In a column of two or more rows, sorting compares the null row and raises the same exception. | a null argument is stored as the missing indicator `""`, as `set(int, String)` and `appendObj` already do | not executed; medium | AppendNullFinding.AppendNullIsNotMissing | TextColumns.BackingTextColumn.Append |
