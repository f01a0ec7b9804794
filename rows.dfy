/** What `update` does to a row while rendering it, and what the search
    reads back from the rendered cells. */
module Rows {
  import opened Text
  import opened Values
  import opened Columns

  /** The row holds a key for every column. */
  predicate HasColumns(row: Row, columns: seq<string>) {
    forall c :: c in columns ==> c in row
  }

  /** A row after `update` has rendered it against `columns`: every column the
      row lacks is added as Null; every key it had keeps its value (a Null cell
      is written Null again). */
  function NormalizeRow(row: Row, columns: seq<string>): (r: Row)
    ensures HasColumns(r, columns)
    ensures forall k :: k in row ==> k in r && r[k] == row[k]
  {
    map k | k in row.Keys + (set c | c in columns) :: if k in row then row[k] else Null
  }

  /** After rendering, the row has a key for every column, a cell that was
      missing or Null is Null, non-null cells are unchanged, and no key other
      than a column was added. */
  lemma NormalizeRowFills(row: Row, columns: seq<string>)
    ensures var r := NormalizeRow(row, columns);
            HasColumns(r, columns) &&
            (forall k :: k in r <==> k in row || k in columns) &&
            (forall c :: c in columns ==> (Cell(row, c) == Null <==> r[c] == Null)) &&
            (forall k :: k in row ==> r[k] == row[k])
  {
  }

  /** Rendering a row that already has every column changes nothing, so
      rendering twice is rendering once. */
  lemma NormalizeRowIdentity(row: Row, columns: seq<string>)
    requires HasColumns(row, columns)
    ensures NormalizeRow(row, columns) == row
  {
    var r := NormalizeRow(row, columns);
    assert r.Keys == row.Keys;
  }

  /** One pass of the inner rendering loop, for column `c`: if the cell is
      present and non-null it is kept, otherwise it is set to Null. */
  lemma NormalizeRowStep(row: Row, columns: seq<string>, j: nat)
    requires j < |columns|
    ensures var r := NormalizeRow(row, columns[..j]);
            var c := columns[j];
            NormalizeRow(row, columns[..j + 1]) ==
              if c in r && r[c] != Null then r else r[c := Null]
  {
    var r := NormalizeRow(row, columns[..j]);
    var c := columns[j];
    var r1 := NormalizeRow(row, columns[..j + 1]);
    assert columns[..j + 1] == columns[..j] + [c];
    if c in r && r[c] != Null {
      assert r1 == r;
    } else {
      assert r1 == r[c := Null];
    }
  }

  /** Every row holds a key for every column. */
  predicate AllHaveColumns(rs: seq<Row>, columns: seq<string>) {
    forall i :: 0 <= i < |rs| ==> HasColumns(rs[i], columns)
  }

  /** The rows after `update` has rendered each of them. */
  function NormalizeRows(rs: seq<Row>, columns: seq<string>): (out: seq<Row>)
    ensures |out| == |rs|
  {
    seq(|rs|, i requires 0 <= i < |rs| => NormalizeRow(rs[i], columns))
  }

  /** After `update` every row holds every column, and an `update` of rows
      that already do changes nothing. */
  lemma NormalizeRowsSpec(rs: seq<Row>, columns: seq<string>)
    ensures AllHaveColumns(NormalizeRows(rs, columns), columns)
    ensures AllHaveColumns(rs, columns) ==> NormalizeRows(rs, columns) == rs
  {
    forall i | 0 <= i < |rs|
      ensures HasColumns(NormalizeRows(rs, columns)[i], columns)
      ensures HasColumns(rs[i], columns) ==> NormalizeRows(rs, columns)[i] == rs[i]
    {
      NormalizeRowFills(rs[i], columns);
      if HasColumns(rs[i], columns) {
        NormalizeRowIdentity(rs[i], columns);
      }
    }
  }

  /** A rendered cell: either empty (the value was missing or Null) or a
      `<td>` carrying the column as `data-header`, the value's type, its badge
      and its text. */
  datatype CellView = Empty | Filled(header: string, typ: string, badge: string, text: string)

  /** The cell `update` renders for `column` of `row`. */
  function RenderCell(row: Row, column: string): (view: CellView)
    ensures view.Empty? <==> Cell(row, column) == Null
    ensures view.Filled? ==> view.header == column && view.text == ToString(row[column])
  {
    var v := Cell(row, column);
    if v != Null then Filled(column, TypeOf(v), GetLibBadge(TypeOf(v)), ToString(v)) else Empty
  }

  /** The cells of one rendered row, one per column. */
  function RenderRow(row: Row, columns: seq<string>): (views: seq<CellView>)
    ensures |views| == |columns|
  {
    seq(|columns|, j requires 0 <= j < |columns| => RenderCell(row, columns[j]))
  }

  /** With distinct columns, the search's selector `td[data-header=col]` finds
      in a rendered row exactly the cell of column `col`, and finds it only
      when that cell is not Null. */
  lemma SelectorFindsColumnCell(row: Row, columns: seq<string>, col: string)
    requires NoDuplicates(columns)
    ensures var views := RenderRow(row, columns);
            forall j :: 0 <= j < |columns| && views[j].Filled? && views[j].header == col ==>
                          columns[j] == col && Cell(row, col) != Null
    ensures var views := RenderRow(row, columns);
            col in columns && Cell(row, col) != Null ==>
              exists j :: 0 <= j < |columns| && views[j].Filled? && views[j].header == col
  {
    if col in columns && Cell(row, col) != Null {
      var j :| 0 <= j < |columns| && columns[j] == col;
      assert RenderRow(row, columns)[j] == RenderCell(row, col);
    }
  }

  /** The search's test for a non-null cell: its lower-cased text contains the
      lower-cased, trimmed query. */
  predicate Matches(v: Value, query: string)
    ensures Matches(v, query) <==> exists i :: OccursAt(Lower(ToString(v)), Lower(Trim(query)), i)
  {
    ContainsOccurs(Lower(ToString(v)), Lower(Trim(query)));
    Contains(Lower(ToString(v)), Lower(Trim(query)))
  }

  /** A query that is empty or only whitespace matches every cell. */
  lemma BlankQueryMatchesAll(v: Value, query: string)
    requires AllWhitespace(query)
    ensures Matches(v, query)
  {
    TrimBlank(query);
  }

  /** The match ignores case in both the cell and the query, and ignores
      whitespace around the query. */
  lemma MatchIgnoresCaseAndPadding(v: Value, query: string)
    ensures Matches(v, query) == Matches(v, Lower(query))
    ensures Matches(v, query) == Matches(v, Trim(query))
  {
    TrimIdempotent(query);
    LowerTrimCommute(query);
    LowerIdempotent(Trim(query));
  }

  /** Lower-casing does not touch whitespace, so it commutes with trimming. */
  lemma LowerTrimCommute(s: string)
    ensures Lower(Trim(s)) == Trim(Lower(s))
  {
    var lo := SkipLeading(s, 0);
    SkipLeadingLower(s, 0);
    SkipTrailingLower(s, lo, |s|);
    var hi := SkipTrailing(s, lo, |s|);
    assert Lower(s[lo..hi]) == Lower(s)[lo..hi];
  }

  lemma {:induction false} SkipLeadingLower(s: string, i: nat)
    requires i <= |s|
    ensures SkipLeading(Lower(s), i) == SkipLeading(s, i)
    decreases |s| - i
  {
    if i < |s| {
      LowerKeepsWhitespace(s[i]);
      SkipLeadingLower(s, i + 1);
    }
  }

  lemma {:induction false} SkipTrailingLower(s: string, lo: nat, j: nat)
    requires lo <= j <= |s|
    ensures SkipTrailing(Lower(s), lo, j) == SkipTrailing(s, lo, j)
    decreases j
  {
    if lo < j {
      LowerKeepsWhitespace(s[j - 1]);
      SkipTrailingLower(s, lo, j - 1);
    }
  }
}
