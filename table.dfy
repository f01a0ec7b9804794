/** The `il-table` element's data engine: the columns and rows `initTable`
    builds, the rows' hidden flags, each column's search input, and the
    handlers that load, render, sort, search and toggle the filter. */
module Table {
  import opened Text
  import opened Values
  import opened Columns
  import opened Rows
  import opened Comparators
  import opened Sorting

  /** The keys that run a search. */
  const TriggerKeys: seq<string> := ["Enter", "Tab"]

  /** The search inputs after a search on, or a filter toggle of, column `col`:
      every other column's input is emptied and hidden, `col`'s is as before. */
  predicate ClearedExcept(columns: seq<string>, col: string,
                          oldValue: seq<string>, oldHidden: seq<bool>,
                          newValue: seq<string>, newHidden: seq<bool>)
    requires |oldValue| == |oldHidden| == |newValue| == |newHidden| == |columns|
  {
    forall c :: 0 <= c < |columns| ==>
      if columns[c] != col then newValue[c] == "" && newHidden[c]
      else newValue[c] == oldValue[c] && newHidden[c] == oldHidden[c]
  }

  /** A row's visibility after a search with `query`, given its cell `v` in the
      searched column: unchanged when the cell is Null (it is not rendered with
      a `data-header`), otherwise visible exactly when the cell matches. */
  predicate SearchVisibility(v: Value, query: string, wasHidden: bool, isHidden: bool) {
    if v == Null then isHidden == wasHidden else (!isHidden <==> Matches(v, query))
  }

  /** Rearranging rows that each hold every column gives rows that do. */
  lemma RearrangedRowsHaveColumns(perm: seq<int>, before: seq<Row>, now: seq<Row>, columns: seq<string>)
    requires Rearranges(perm, before, now) && AllHaveColumns(before, columns)
    ensures AllHaveColumns(now, columns)
  {
    forall k | 0 <= k < |now| ensures HasColumns(now[k], columns) {
      assert now[k] == before[perm[k]];
    }
  }

  /** Meeting the keys of the records before `idx` and then those of record
      `idx` is meeting the keys of the records up to `idx`. */
  lemma AllKeysStep(columns: seq<string>, records: seq<Record>, idx: int)
    requires 0 <= idx < |records|
    ensures AddKeys(AddKeys(columns, AllKeys(records[..idx])), Keys(records[idx])) ==
            AddKeys(columns, AllKeys(records[..idx + 1]))
  {
    AddKeysAppend(columns, AllKeys(records[..idx]), Keys(records[idx]));
    assert records[..idx + 1][..idx] == records[..idx];
  }

  /** A search for a blank query shows every row whose cell in the column is
      rendered. */
  lemma BlankSearchShowsRenderedRows(v: Value, query: string, wasHidden: bool, isHidden: bool)
    requires AllWhitespace(query) && v != Null
    requires SearchVisibility(v, query, wasHidden, isHidden)
    ensures !isHidden
  {
    BlankQueryMatchesAll(v, query);
  }

  /** What a first load leaves in row `i`: every column, the synthetic `id`
      equal to `i` unless the record has an "id" entry of its own, and, when
      the record's keys are distinct, the record's value under each key. */
  lemma LoadedRowContents(records: seq<Record>, columns: seq<string>, i: int)
    requires 0 <= i < |records|
    ensures var row := NormalizeRows(RecordRows(records), columns)[i];
            HasColumns(row, columns) &&
            (forall k :: k in row <==> k == "id" || k in Keys(records[i]) || k in columns) &&
            ("id" !in Keys(records[i]) ==> row["id"] == Int(i)) &&
            (NoDuplicates(Keys(records[i])) ==>
               forall j :: 0 <= j < |records[i]| ==> row[records[i][j].0] == records[i][j].1)
  {
    var rec := RecordRow(i, records[i]);
    RecordRowContents(i, records[i]);
    NormalizeRowFills(rec, columns);
  }

  /** A new array holding `s`. */
  method ArrayOf(s: seq<Row>) returns (a: array<Row>)
    ensures fresh(a) && a[..] == s
  {
    a := new Row[|s|](i requires 0 <= i < |s| => s[i]);
  }

  class TableList {
    /** Column names, in first-seen order. */
    var columns: seq<string>
    /** The rows, in display order. */
    var rows: array<Row>
    /** Whether the `<tr>` showing `rows[i]` carries the `hidden` attribute. */
    var hidden: array<bool>
    /** The text of each column's search input, by column position. */
    var inputValue: seq<string>
    /** Whether each column's search input is hidden, by column position. */
    var inputHidden: seq<bool>

    /** The shape every handler keeps: one hidden flag per row, one input per
        column, and no column twice. */
    ghost predicate WellFormed()
      reads this
    {
      rows.Length == hidden.Length &&
      |inputValue| == |columns| && |inputHidden| == |columns| &&
      NoDuplicates(columns)
    }

    /** Between events: well formed, and every row has been rendered, so it
        holds a key for every column. */
    ghost predicate Valid()
      reads this, rows
    {
      WellFormed() && AllHaveColumns(rows[..], columns)
    }

    constructor ()
      ensures Valid() && fresh(rows) && fresh(hidden)
      ensures columns == [] && rows.Length == 0 && inputValue == [] && inputHidden == []
    {
      columns := [];
      rows := new Row[0];
      hidden := new bool[0];
      inputValue := [];
      inputHidden := [];
    }

    /** `isInColumns`: whether `column` is already a column. */
    function IsInColumns(column: string): (present: bool)
      reads this
      ensures present <==> exists c :: 0 <= c < |columns| && columns[c] == column
      ensures !present && NoDuplicates(columns) ==> NoDuplicates(columns + [column])
    {
      column in columns
    }

    /** `update`: render every row against every column, writing Null into each
        cell that is missing or null, and rebuild the body, so that no row is
        hidden any more. */
    method Update()
      requires WellFormed()
      modifies rows, hidden
      ensures Valid()
      ensures rows[..] == NormalizeRows(old(rows[..]), columns)
      ensures forall i :: 0 <= i < hidden.Length ==> !hidden[i]
    {
      var i := 0;
      while i < rows.Length
        invariant 0 <= i <= rows.Length
        invariant forall k :: 0 <= k < i ==> rows[k] == NormalizeRow(old(rows[k]), columns) && !hidden[k]
        invariant forall k :: i <= k < rows.Length ==> rows[k] == old(rows[k])
      {
        var j := 0;
        ghost var snapshot := rows[..];
        NormalizeRowIdentity(rows[i], []);
        assert columns[..0] == [];
        while j < |columns|
          modifies rows
          invariant 0 <= j <= |columns|
          invariant rows[i] == NormalizeRow(old(rows[i]), columns[..j])
          invariant forall k :: 0 <= k < rows.Length && k != i ==> rows[k] == snapshot[k]
        {
          NormalizeRowStep(old(rows[i]), columns, j);
          var column := columns[j];
          if !(column in rows[i] && rows[i][column] != Null) {
            rows[i] := rows[i][column := Null];
          }
          j := j + 1;
        }
        assert columns[..|columns|] == columns;
        hidden[i] := false;
        i := i + 1;
      }
      assert rows[..] == NormalizeRows(old(rows[..]), columns);
      NormalizeRowsSpec(old(rows[..]), columns);
    }

    /** `initTable`: for each record, in order, build a row holding the
        synthetic `id` (the record's position) and the record's entries,
        pushing each key not yet a column onto the columns; append the rows,
        rebuild the header (every search input empty and hidden) and `update`.
        Loading again appends to what an earlier load left. */
    method Load(records: seq<Record>)
      requires Valid()
      modifies this
      ensures Valid() && fresh(rows) && fresh(hidden)
      ensures columns == AddKeys(old(columns), AllKeys(records))
      ensures rows[..] == NormalizeRows(old(rows[..]) + RecordRows(records), columns)
      ensures forall k :: 0 <= k < hidden.Length ==> !hidden[k]
      ensures forall c :: 0 <= c < |columns| ==> inputValue[c] == "" && inputHidden[c]
    {
      ghost var columns0 := columns;
      var newRows := LoadRecords(records);
      AddKeysUnion(columns0, AllKeys(records));
      rows := newRows;
      hidden := new bool[rows.Length];
      inputValue := seq(|columns|, _ => "");
      inputHidden := seq(|columns|, _ => true);
      Update();
    }

    /** `initTable`'s loop over the records: the old rows followed by one new
        row per record, growing the columns record by record. */
    method LoadRecords(records: seq<Record>) returns (newRows: array<Row>)
      modifies this`columns
      ensures fresh(newRows)
      ensures columns == AddKeys(old(columns), AllKeys(records))
      ensures newRows[..] == rows[..] + RecordRows(records)
    {
      var pushed: seq<Row> := [];
      assert records[..0] == [];
      var idx := 0;
      while idx < |records|
        invariant 0 <= idx <= |records|
        invariant columns == AddKeys(old(columns), AllKeys(records[..idx]))
        invariant |pushed| == idx
        invariant forall k :: 0 <= k < idx ==> pushed[k] == RecordRow(k, records[k])
      {
        var row := LoadRecord(idx, records[idx]);
        AllKeysStep(old(columns), records, idx);
        pushed := pushed + [row];
        idx := idx + 1;
      }
      assert records[..|records|] == records;
      assert pushed == RecordRows(records);
      newRows := ArrayOf(rows[..] + pushed);
    }

    /** The body of `initTable`'s loop for the record `item` at position `idx`:
        build its row, pushing each key not yet a column onto the columns. */
    method LoadRecord(idx: nat, item: Record) returns (row: Row)
      modifies this`columns
      ensures columns == AddKeys(old(columns), Keys(item))
      ensures row == RecordRow(idx, item)
    {
      row := map["id" := Int(idx)];
      var j := 0;
      while j < |item|
        invariant 0 <= j <= |item|
        invariant columns == AddKeys(old(columns), Keys(item[..j]))
        invariant row == Assign(map["id" := Int(idx)], item[..j])
      {
        var (key, value) := item[j];
        EntryStep(old(columns), map["id" := Int(idx)], item, j);
        if !IsInColumns(key) {
          columns := columns + [key];
        }
        row := row[key := value];
        j := j + 1;
      }
      assert item[..|item|] == item;
    }

    /** `handleSort`: sort the rows in place by the column `key`, descending
        when the button's `data-order` is "-1" and ascending otherwise, then
        `update`.  The rows are a stable rearrangement of what they were. */
    method Sort(key: string, order: string)
      requires Valid()
      modifies rows, hidden
      ensures Valid()
      ensures exists perm :: IsStableSortOf(perm, old(rows[..]), rows[..], SortProperty(key, order))
      ensures multiset(rows[..]) == multiset(old(rows[..]))
      ensures forall i :: 0 <= i < hidden.Length ==> !hidden[i]
    {
      var property := SortProperty(key, order);
      ghost var before := rows[..];
      ghost var perm := InsertionSort(rows, property);
      ghost var sorted := rows[..];
      RearrangedRowsHaveColumns(perm, before, sorted, columns);
      NormalizeRowsSpec(sorted, columns);
      Update();
      assert IsStableSortOf(perm, before, rows[..], SortProperty(key, order));
    }

    /** Empty and hide the search input of every column other than `col`. */
    method ClearOtherInputs(col: string)
      requires WellFormed()
      modifies this`inputValue, this`inputHidden
      ensures WellFormed()
      ensures ClearedExcept(columns, col, old(inputValue), old(inputHidden), inputValue, inputHidden)
    {
      var c := 0;
      while c < |columns|
        invariant 0 <= c <= |columns|
        invariant |inputValue| == |columns| && |inputHidden| == |columns|
        invariant ClearedExcept(columns[..c], col, old(inputValue)[..c], old(inputHidden)[..c],
                                inputValue[..c], inputHidden[..c])
        invariant inputValue[c..] == old(inputValue)[c..] && inputHidden[c..] == old(inputHidden)[c..]
      {
        if columns[c] != col {
          inputValue := inputValue[c := ""];
          inputHidden := inputHidden[c := true];
        }
        c := c + 1;
      }
      assert columns[..c] == columns;
      assert inputValue[..c] == inputValue && inputHidden[..c] == inputHidden;
    }

    /** `handleSearch` on column `col`'s input holding `query`, for the key
        `pressedKey`: nothing unless it is Enter or Tab; otherwise the other
        columns' inputs are emptied and hidden, and every row whose cell in
        `col` is shown becomes visible exactly when the cell's text contains
        the trimmed query, ignoring case.  Rows whose cell is Null have no
        `data-header` cell and keep their visibility. */
    method Search(col: string, pressedKey: string, query: string)
      requires Valid() && col in columns
      modifies this`inputValue, this`inputHidden, hidden
      ensures Valid()
      ensures pressedKey !in TriggerKeys ==>
                inputValue == old(inputValue) && inputHidden == old(inputHidden) && hidden[..] == old(hidden[..])
      ensures pressedKey in TriggerKeys ==>
                ClearedExcept(columns, col, old(inputValue), old(inputHidden), inputValue, inputHidden)
      ensures pressedKey in TriggerKeys ==>
                forall i :: 0 <= i < hidden.Length ==>
                  SearchVisibility(Cell(rows[i], col), query, old(hidden[i]), hidden[i])
    {
      if pressedKey in TriggerKeys {
        ClearOtherInputs(col);
        FilterRows(col, query);
      }
    }

    /** The row pass of `handleSearch`: for each row whose cell in `col` is
        rendered, show the row iff the cell matches `query`. */
    method FilterRows(col: string, query: string)
      requires rows.Length == hidden.Length && col in columns
      modifies hidden
      ensures forall i :: 0 <= i < hidden.Length ==>
                SearchVisibility(Cell(rows[i], col), query, old(hidden[i]), hidden[i])
    {
      var i := 0;
      while i < rows.Length
        invariant 0 <= i <= rows.Length
        invariant forall k :: 0 <= k < i ==> SearchVisibility(Cell(rows[k], col), query, old(hidden[k]), hidden[k])
        invariant forall k :: i <= k < hidden.Length ==> hidden[k] == old(hidden[k])
      {
        var v := Cell(rows[i], col);
        if v != Null {
          hidden[i] := !Matches(v, query);
        }
        assert SearchVisibility(v, query, old(hidden[i]), hidden[i]);
        i := i + 1;
      }
    }

    /** `handleFilter` on column `col`'s filter button: the other columns'
        inputs are emptied and hidden; `col`'s input is shown if it was hidden,
        and otherwise hidden again, in which case `update` runs and every row
        becomes visible. */
    method ToggleFilter(col: string)
      requires Valid() && col in columns
      modifies this`inputValue, this`inputHidden, rows, hidden
      ensures Valid()
      ensures rows[..] == old(rows[..])
      ensures var c := IndexOf(columns, col);
              (forall k :: 0 <= k < |columns| && k != c ==> inputValue[k] == "" && inputHidden[k]) &&
              inputValue[c] == old(inputValue[c]) && inputHidden[c] == !old(inputHidden[c])
      ensures old(inputHidden[IndexOf(columns, col)]) ==> hidden[..] == old(hidden[..])
      ensures !old(inputHidden[IndexOf(columns, col)]) ==> forall i :: 0 <= i < hidden.Length ==> !hidden[i]
    {
      ClearOtherInputs(col);
      var c := IndexOf(columns, col);
      if inputHidden[c] {
        inputHidden := inputHidden[c := false];
      } else {
        inputHidden := inputHidden[c := true];
        NormalizeRowsSpec(rows[..], columns);
        Update();
      }
    }
  }
}
