# il-table data engine in Dafny

`il-table.js` defines a browser custom element, `<il-table>`. It shows a list
of records as a table. The user can sort by a column, open a search box per
column and filter the rows by typing in it. Under the DOM code sits a small
in-memory engine, and this project models that engine:

- **Values.** A cell holds `Null`, a boolean, an integer or a string.
  Comparisons use an explicit total order: Null < booleans < numbers <
  strings, with `false < true`, numbers compared numerically and strings
  compared code point by code point. `TypeOf` models `typeof`, `GetLibBadge`
  models the type-badge switch, and `ToString` gives the text a cell shows.
- **Comparators** (`Comparators`). `dynamicSort(property)` is modelled by
  applying it, as `DynamicSort(property, a, b)`. The comparator that
  `dynamicSortMultiple(...)` returns is the method `DynamicSortMultiple`,
  with the same `while` loop. That method is proved equal to the
  first-non-zero function `MultiCompare`.
- **Loading** (`Columns`, `TableList.Load`). `initTable`'s loop builds one
  row per record. Each row gets a synthetic `id` (the record's position),
  then the record's entries in order. A key is pushed onto the column list
  unless `isInColumns` already reports it. The header is then rebuilt, so
  every search input is empty and hidden, and `update` runs.
- **Rendering** (`Rows`, `TableList.Update`). `update` walks every row and
  every column. A missing or null cell is set to Null in place. The body is
  rebuilt, so no row stays hidden.
- **Sorting** (`Sorting`, `TableList.Sort`). `handleSort` sorts the rows
  array in place, using `dynamicSort("-" + key)` when the button's order is
  "-1" and `dynamicSort(key)` otherwise, and then calls `update`. The
  in-place sort is a stable insertion sort on the `array<Row>`. Stability is
  what `Array.prototype.sort` guarantees.
- **Search and filter toggle** (`TableList.Search`, `TableList.ToggleFilter`).
  - Both handlers empty and hide the search input of every other column.
  - A search runs only on Enter or Tab. Each row whose cell in the column
    is rendered becomes visible exactly when the cell's lower-cased text
    contains the lower-cased, trimmed query. Rows whose cell is Null have no
    `td[data-header=...]`, so they keep their visibility.
  - The toggle shows the column's input if it was hidden. Otherwise it
    hides the input and runs `update`.

The engine is the class `Table.TableList`. Its fields are `columns`, `rows`
(an `array<Row>`, where a row is a `map<string, Value>`), one `hidden` flag
per row, and each column's input text and input visibility. Search and toggle
take the column name that the event's `data-key` carries, which is always
one of the columns, since only the header cells carry it. Search also takes
the pressed key and the text of the column's input.

Four behaviours of the code that are easy to miss are modelled as written:

- `update` does write Null into every missing key of every row. Rows are
  therefore backfilled in place, not only treated as null when displayed.
- A search leaves rows with a Null cell as they were. It neither hides them
  for a non-empty query nor shows them for an empty one.
- Searching one column does not reset the visibility of rows filtered by
  another column. Only the other inputs are cleared.
- A record with its own `id` entry overwrites the synthetic id. It also makes
  `id` a column, which no record without such an entry does.

One quirk is modelled as written: a column whose own name starts with "-" and
is sorted with an order other than "-1" is sorted by the name without the
"-", in descending order (`Sorting.DashColumnSortsDescending`).

## Model

| member | source | states |
|---|---|---|
| Values.Less | il-table.js:13 | definition of the order behind `<` and `>` on cells: a value is never below itself, and never below a value of an earlier kind; its order laws are in `LessIsStrictTotalOrder` |
| Values.LessIsStrictTotalOrder | il-table.js:13 | the order that stands in for `<`/`>` on cells is irreflexive and transitive, and any two different values are ordered one way or the other |
| Values.NullLeast | il-table.js:13 | Null is at most every value and strictly below every non-null one |
| Values.TypeOf | il-table.js:324 | `typeof` of a cell is always one of the type names the badge switch lists |
| Values.GetLibBadge | il-table.js:294-313 | an unlisted type name comes back unchanged; a listed one is replaced by a label that is not itself a listed type name |
| Values.BadgesTellKindsApart | il-table.js:294-313 | two non-null cells get the same badge exactly when they are of the same kind |
| Values.ToString | il-table.js:324 | the text `${row[column]}` gives a cell: a string shows as itself, a number's text is non-empty and starts with "-" exactly when the number is negative; its digits are read back in `NumberTextReadsBack` |
| Values.NumberTextReadsBack | il-table.js:324 | a number's cell text is its decimal form: it reads back as the number, with a leading "-" for negatives |
| Text.SkipLeadingStops | il-table.js:247 | the leading scan of `trim` passes only whitespace and stops at a non-whitespace character or the end |
| Text.SkipTrailingStops | il-table.js:247 | the trailing scan of `trim` passes only whitespace and stops after a non-whitespace character or at the start |
| Text.Trim | il-table.js:247 | the trimmed query is no longer than the query |
| Text.TrimIsInnerSlice | il-table.js:247 | `trim` keeps the slice between the leading and trailing whitespace; only whitespace lies outside it, and the slice neither starts nor ends with whitespace |
| Text.TrimIdempotent | il-table.js:247 | trimming twice is trimming once |
| Text.TrimBlank | il-table.js:247 | a query of whitespace only trims to the empty string |
| Text.LowerChar | il-table.js:250 | a folded character is never a capital; capitals move by 32 code points, other characters are kept |
| Text.Lower | il-table.js:250 | `toLowerCase` keeps the length and leaves no capital behind |
| Text.LowerKeepsWhitespace | il-table.js:247-250 | case folding neither makes nor unmakes whitespace |
| Text.LowerIdempotent | il-table.js:250 | lower-cased text has no capitals left, and lower-casing it again changes nothing |
| Text.Contains | il-table.js:250 | `includes` finds only a query no longer than the text, and always finds the empty query; `ContainsOccurs` gives its full meaning |
| Text.ContainsOccurs | il-table.js:250 | `includes` is true exactly when the query occurs at some position of the text |
| Text.NatToString | il-table.js:324 | a natural number's text is a non-empty run of digits without a leading zero unless the number is 0 |
| Text.ParseNatToString | il-table.js:324 | a natural number's text reads back as that number |
| Text.IntToString | il-table.js:324 | a negative number's text is "-" followed by its magnitude's digits; other numbers have no sign |
| Comparators.SortKey | il-table.js:8-11 | a property starting with "-" names the key without it; any other property is the key itself |
| Comparators.CompareValues | il-table.js:13 | the comparison gives -1, 0 or 1 exactly when the first cell is below, equal to, or above the second |
| Comparators.DynamicSort | il-table.js:6-16 | the comparator returns only -1, 0 or 1, and returns 0 exactly when both rows hold the same value under the key |
| Comparators.DynamicSortPrefixNegates | il-table.js:7-14 | a "-" prefix is stripped and negates the comparison; a key without one compares ascending |
| Comparators.DynamicSortAntisymmetric | il-table.js:12-15 | swapping the two rows negates the result |
| Comparators.DynamicSortOrderMeaning | il-table.js:12-15 | a result of at most 0 means the first cell is at most the second in ascending order, or at least it in descending order |
| Comparators.DynamicSortTransitive | il-table.js:12-15 | "may come before" is transitive |
| Comparators.MultiCompare | il-table.js:24-34 | the chained comparison returns only -1, 0 or 1 |
| Comparators.MultiCompareFirstNonZero | il-table.js:24-34 | the chained result is 0 exactly when every key ties, so also for no keys; otherwise it is the result of the first key that does not tie |
| Comparators.MultiCompareIgnoresLaterKeys | il-table.js:30-33 | keys after the first non-tying one are never consulted |
| Comparators.DynamicSortMultiple | il-table.js:18-36 | the comparator's loop returns exactly the first-non-zero result over the keys in order |
| Columns.AddKey | il-table.js:353-355 | one step of the key loop: afterwards the key is a column, and at most one column was added |
| Columns.AddKeys | il-table.js:352-355 | meeting a run of keys adds at most one column per key and never removes one; its other properties are in `AddKeysUnion`, `AddKeysAppend` and `AddKeysFirstSeenOrder` |
| Columns.AddKeysAppend | il-table.js:348-358 | meeting two runs of keys one after the other is meeting their concatenation |
| Columns.AddKeysUnion | il-table.js:348-358 | pushing keys keeps the old columns as a prefix; the columns become the union of the old ones and the keys, with no duplicate if there was none |
| Columns.FirstSeenOrderStep | il-table.js:353-355 | meeting one more key keeps the columns in first-seen order |
| Columns.AddKeysFirstSeenOrder | il-table.js:348-358 | the columns are listed in order of first occurrence among the old columns followed by the keys |
| Columns.RecordRows | il-table.js:348-359 | loading yields exactly one row per record |
| Columns.Assign | il-table.js:352-357 | assigning a record's entries onto a row keeps every key the row had; `AssignKeys` and `AssignValues` state the rest |
| Columns.RecordRow | il-table.js:349-357 | the row built for record `idx` always has an `id`, which is `idx` unless the record lists its own `id` |
| Columns.EntryStep | il-table.js:352-357 | one more entry of a record is met as one more key and assigned as one more value, after the earlier entries |
| Columns.AssignKeys | il-table.js:350-357 | a built row holds the starting keys and the record's keys and nothing else; keys the record lacks keep their value |
| Columns.AssignValues | il-table.js:356 | a key the record lists once holds that entry's value |
| Columns.RecordRowContents | il-table.js:349-357 | row `idx` holds `id` and the record's keys; `id` is `idx` unless the record has its own; with distinct keys each key holds the record's value |
| Columns.LoadedColumns | il-table.js:348-358 | loading into no columns gives the records' keys without duplicates, in first-seen order; `id` is a column only if some record has an `id` key |
| Columns.AllKeysMembers | il-table.js:348-358 | a key is met during the load exactly when some record has it |
| Rows.NormalizeRow | il-table.js:322-329 | the row `update` leaves behind has every column, and every key the row had keeps its value; `NormalizeRowFills` adds what the missing cells become |
| Rows.NormalizeRowFills | il-table.js:320-330 | after rendering, a row has every column; a cell that was missing or Null is Null, non-null cells are unchanged, and no other key is added |
| Rows.NormalizeRowIdentity | il-table.js:322-329 | rendering a row that already has every column changes nothing |
| Rows.NormalizeRowStep | il-table.js:323-328 | one pass of the column loop keeps a present non-null cell and sets any other to Null |
| Rows.NormalizeRows | il-table.js:320-333 | rendering keeps the number of rows |
| Rows.NormalizeRowsSpec | il-table.js:315-338 | after `update` every row has every column, and a second `update` changes nothing |
| Rows.RenderRow | il-table.js:320-333 | a rendered row has one cell per column |
| Rows.SelectorFindsColumnCell | il-table.js:324 | in a rendered row, `td[data-header=col]` matches only the cell of column `col`, and matches it exactly when that cell is not Null |
| Rows.Matches | il-table.js:247-250 | a cell matches exactly when the lower-cased, trimmed query occurs at some position of the cell's lower-cased text |
| Rows.BlankQueryMatchesAll | il-table.js:247-250 | an empty or all-whitespace query matches every cell |
| Rows.MatchIgnoresCaseAndPadding | il-table.js:247-250 | the match is the same for a query and for its lower-cased or trimmed form |
| Rows.LowerTrimCommute | il-table.js:247-250 | lower-casing and trimming commute |
| Sorting.InsertionSort | il-table.js:257 | the rows end up as a stable sort of the old rows by the comparator: a rearrangement, in comparator order, with tied rows in their old relative order, and the same multiset of rows |
| Sorting.SortProperty | il-table.js:256-257 | order "-1" sorts descending by the key; any other order sorts ascending by a key that does not start with "-" |
| Sorting.SortedByColumn | il-table.js:254-258 | rows sorted with order "-1" are in descending cell order of the column, even when its name starts with "-"; with any other order a column whose name does not start with "-" is in ascending order; Null cells come first ascending and last descending |
| Sorting.DashColumnSortsDescending | il-table.js:254-258 | a column named with a leading "-" and sorted with an order other than "-1" ends up descending by the name without the "-" |
| Sorting.IncreasingPermutationIsIdentity | il-table.js:257 | a rearrangement that keeps every pair in order is the identity |
| Sorting.StableSortOfSortedIsIdentity | il-table.js:257 | sorting rows that are already sorted leaves them unchanged |
| Table.BlankSearchShowsRenderedRows | il-table.js:247-250 | a search for a blank query shows every row whose cell in the column is rendered |
| Table.LoadedRowContents | il-table.js:348-359 | after a first load, row `i` has every column and `id` equal to `i` unless the record has its own `id`; with distinct keys it holds the record's value under each key |
| Table.TableList.constructor | il-table.js:204-205 | a new table has no columns, no rows and no inputs |
| Table.TableList.IsInColumns | il-table.js:290-292 | a key is reported present exactly when it sits at some position of the column list; a key reported absent can be pushed without creating a duplicate column |
| Table.TableList.Update | il-table.js:315-338 | every row is replaced by its rendered form, so every row has every column, and no row is hidden |
| Table.TableList.Load | il-table.js:344-375 | the columns grow by the records' keys in first-seen order; the rows are the old rows then one row per record, all rendered; no row is hidden; every search input is empty and hidden |
| Table.TableList.LoadRecords | il-table.js:348-360 | the record loop appends one row per record and grows the columns record by record |
| Table.TableList.LoadRecord | il-table.js:349-359 | one record's pass builds the row from `id` and the entries, pushing each key not yet a column |
| Table.TableList.Sort | il-table.js:254-259 | the rows become a stable sort of the old rows by the chosen key and order, with the same multiset; every row is visible afterwards |
| Table.TableList.ClearOtherInputs | il-table.js:240-246 | every other column's input becomes empty and hidden; the chosen column's input is unchanged |
| Table.TableList.Search | il-table.js:237-252 | for a search on a column: a key other than Enter or Tab changes nothing; otherwise the other inputs are cleared and hidden, and each row with a rendered cell is visible exactly when the cell matches, while rows with a Null cell keep their visibility |
| Table.TableList.FilterRows | il-table.js:249-250 | for a column, each row with a rendered cell in it is visible exactly when the cell matches the query; other rows keep their flag |
| Table.TableList.ToggleFilter | il-table.js:261-277 | the other inputs are cleared and hidden and the column's input visibility flips; if the input is hidden again, `update` runs and every row becomes visible; the rows themselves are unchanged |

## Left out

- Network I/O: the `HttpClient` wrapper and the synchronous `getData` fetch are not modelled. The records come in as `Load`'s parameter.
- The hard-coded `books` list is data, not logic. `Load` takes any list of records instead.
- The custom-element lifecycle, the shadow DOM and the adding and removing of event listeners are host-framework plumbing and are not modelled.
- The HTML and CSS template, the header and button markup, and the `<tr>`/`<td>` strings are not modelled. A rendered cell is the abstract `CellView`, and the DOM queries the handlers make are modelled by what they select.
- The `localStorage.setItem` write in `update` is a side effect that nothing reads back, so it is left out.
- `evt.preventDefault()` in the search handler only affects the browser, so it is left out.
- The text of a search input is typed by the user and kept by the browser. `Search` receives it as its `query` parameter; `Search` and `ToggleFilter` receive the event's `data-key` as `col`.
- JavaScript's `<` and `>` on mixed types, and on `undefined` or `null`, coerce their operands. The model replaces that coercion with the explicit total order described above. For example, `null < 1` is true in JavaScript because null becomes 0, but `null < "a"` is false.
- Values are closed to Null, booleans, integers and strings. Records with nested objects or arrays cannot be expressed.
- Records are always objects, given as their entries. A `null` or `undefined` record, on which `Object.entries` throws inside `initTable` (il-table.js:352), is not modelled. Neither is a primitive record, which yields a row holding only `id`, or a string record, whose entries are its characters under the keys "0", "1", and so on.
- Record keys are plain strings with no special meaning. A key that shadows an `Object.prototype` member is not modelled. For example, a key "hasOwnProperty" makes `row.hasOwnProperty(column)` in `update` throw (il-table.js:323), and a key "__proto__" is not stored as an own key of the row.
- JavaScript numbers are modelled as integers. Floating point, NaN, and the exponent notation of very large numbers are not modelled.
- Text.LowerChar: folds only ASCII A-Z and the Latin-1 capitals U+00C0 to U+00DE. The rest of Unicode's case mapping is not modelled.
- Strings are compared by code point. JavaScript compares UTF-16 code units, which differs above U+FFFF.
- Cell text is matched as `ToString` writes it. HTML escaping through `innerHTML`, and CSS-selector quoting of a column name inside `td[data-header="..."]`, are not modelled.
- `Object.entries` lists integer-like keys first, in numeric order. The model takes a record's entries in the order they are given.
- Pushing onto the rows array is modelled as building a new array of the old rows followed by the new ones. Aliasing of the old array is therefore not captured.
- Sorting.InsertionSort: stands in for the engine's own algorithm inside `Array.prototype.sort`. It promises only what that method promises: a stable sort by the comparator.
