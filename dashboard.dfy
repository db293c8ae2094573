/** The dashboard of `app.py`: the saved table is loaded only when it has the columns the
    dashboard shows, three optional multi-select filters narrow its rows, and each filter
    offers the distinct values of its column.

    A table is its header and its rows, each row a map from column name to cell text, as
    `to_dict("records")` gives them. Reading the file is not modelled: the stored table
    comes in as `None` when there is no file or it is empty, and as the parsed table
    otherwise. */
module Dashboard {
  import opened Wrappers
  import opened Seqs

  type Row = map<string, string>

  datatype Table = Table(columns: seq<string>, rows: seq<Row>)

  const ChamberColumn := "Chamber"
  const DayColumn := "Day"
  const CommitteeColumn := "Committee Name"

  /** The columns the dashboard needs, in the order an empty table gets them. */
  const RequiredColumns: seq<string> :=
    [ChamberColumn, DayColumn, CommitteeColumn, "Bill Number", "Bill Author", "Caption", "Stance"]

  predicate HasRequired(t: Table)
  {
    forall c :: c in RequiredColumns ==> c in t.columns
  }

  /** `DataFrame.empty`: no rows or no columns. */
  predicate Empty(t: Table)
  {
    t.rows == [] || t.columns == []
  }

  // ---------------------------------------------------------------- loading (10-21)

  /** The stored table when it has every required column (others may come along), and
      otherwise an empty table with just the required columns. */
  function LoadData(stored: Option<Table>): (t: Table)
    ensures HasRequired(t)
    ensures stored.Some? && HasRequired(stored.value) ==> t == stored.value
    ensures stored.None? || !HasRequired(stored.value) ==> t == Table(RequiredColumns, [])
  {
    if stored.Some? && HasRequired(stored.value) then stored.value
    else Table(RequiredColumns, [])
  }

  /** Whatever is stored, the loaded table has the required columns, and it has rows only
      when the stored table is accepted as it is. */
  lemma LoadDataAccepts(stored: Option<Table>)
    ensures LoadData(stored).rows != [] ==>
              stored.Some? && HasRequired(stored.value) && LoadData(stored) == stored.value
    ensures stored.Some? && stored.value.rows != [] && !HasRequired(stored.value) ==>
              Empty(LoadData(stored))
  {
  }

  // ---------------------------------------------------------------- filtering (90-106)

  /** A dropdown's value: `None` before anything is picked, else the picked values. */
  type Selection = Option<seq<string>>

  /** A selection filters only when something is picked. */
  predicate Active(sel: Selection)
  {
    sel.Some? && sel.value != []
  }

  /** The row's text in `col`; a row without the column matches no selection. */
  predicate InColumn(row: Row, col: string, values: seq<string>)
  {
    col in row && row[col] in values
  }

  /** The boolean mask `df[col].isin(values)`. */
  function IsIn(col: string, values: seq<string>): Row -> bool
  {
    row => InColumn(row, col, values)
  }

  /** One `if selected: filtered_df = filtered_df[...]` step. */
  function Narrow(rows: seq<Row>, col: string, sel: Selection): seq<Row>
  {
    if Active(sel) then Filter(rows, IsIn(col, sel.value)) else rows
  }

  /** The rows `update_table` returns for the three selections. */
  function UpdateTable(stored: Option<Table>, chambers: Selection, days: Selection,
                       committees: Selection): (rows: seq<Row>)
    ensures |rows| <= |LoadData(stored).rows|
    ensures Empty(LoadData(stored)) ==> rows == []
  {
    var t := LoadData(stored);
    if Empty(t) then []
    else Narrow(Narrow(Narrow(t.rows, ChamberColumn, chambers), DayColumn, days),
                CommitteeColumn, committees)
  }

  /** What the three filters ask of one row, each only when its selection is active. */
  predicate Selected(chambers: Selection, days: Selection, committees: Selection, row: Row)
  {
    (Active(chambers) ==> InColumn(row, ChamberColumn, chambers.value))
    && (Active(days) ==> InColumn(row, DayColumn, days.value))
    && (Active(committees) ==> InColumn(row, CommitteeColumn, committees.value))
  }

  function SelectedBy(chambers: Selection, days: Selection, committees: Selection): Row -> bool
  {
    row => Selected(chambers, days, committees, row)
  }

  /** A filter step keeps, in order, the rows passing `keep` out of those passing `before`,
      when `keep` holds of a row exactly when the step's mask (if active) and `before` do. */
  lemma NarrowFilter(rows: seq<Row>, col: string, sel: Selection, before: Row -> bool,
                     keep: Row -> bool)
    requires forall r :: keep(r) == (before(r) && (Active(sel) ==> InColumn(r, col, sel.value)))
    ensures Narrow(Filter(rows, before), col, sel) == Filter(rows, keep)
  {
    if Active(sel) {
      FilterFilter(rows, before, IsIn(col, sel.value), keep);
    } else {
      FilterSame(rows, before, keep);
    }
  }

  /** Filters by two masks that agree everywhere are the same. */
  lemma {:induction false} FilterSame(rows: seq<Row>, p: Row -> bool, q: Row -> bool)
    requires forall r :: p(r) == q(r)
    ensures Filter(rows, p) == Filter(rows, q)
  {
    if rows != [] {
      FilterSame(rows[1..], p, q);
    }
  }

  function Always(): Row -> bool
  {
    row => true
  }

  function ByChamber(chambers: Selection): Row -> bool
  {
    row => Active(chambers) ==> InColumn(row, ChamberColumn, chambers.value)
  }

  function ByChamberAndDay(chambers: Selection, days: Selection): Row -> bool
  {
    row => (Active(chambers) ==> InColumn(row, ChamberColumn, chambers.value))
           && (Active(days) ==> InColumn(row, DayColumn, days.value))
  }

  /** The three successive masks keep exactly the rows that meet every active selection,
      in their order in the table: one filter by the conjunction. */
  lemma UpdateTableIsConjunction(stored: Option<Table>, chambers: Selection, days: Selection,
                                 committees: Selection)
    ensures var t := LoadData(stored);
            UpdateTable(stored, chambers, days, committees)
            == if Empty(t) then [] else Filter(t.rows, SelectedBy(chambers, days, committees))
  {
    var t := LoadData(stored);
    if !Empty(t) {
      FilterAllPass(t.rows, Always());
      NarrowFilter(t.rows, ChamberColumn, chambers, Always(), ByChamber(chambers));
      NarrowFilter(t.rows, DayColumn, days, ByChamber(chambers), ByChamberAndDay(chambers, days));
      NarrowFilter(t.rows, CommitteeColumn, committees, ByChamberAndDay(chambers, days),
                   SelectedBy(chambers, days, committees));
    }
  }

  /** A row is shown exactly when it is a row of the loaded, non-empty table that meets every
      active selection. */
  lemma UpdateTableMembership(stored: Option<Table>, chambers: Selection, days: Selection,
                              committees: Selection, row: Row)
    ensures row in UpdateTable(stored, chambers, days, committees) <==>
            !Empty(LoadData(stored)) && row in LoadData(stored).rows
            && Selected(chambers, days, committees, row)
  {
    UpdateTableIsConjunction(stored, chambers, days, committees);
    FilterMembership(LoadData(stored).rows, SelectedBy(chambers, days, committees), row);
  }

  /** The shown rows keep the table's order and lose no duplicate: each selected row is shown
      as many times as the table holds it. */
  lemma UpdateTableOrder(stored: Option<Table>, chambers: Selection, days: Selection,
                         committees: Selection, row: Row)
    requires !Empty(LoadData(stored))
    ensures IsSubsequence(UpdateTable(stored, chambers, days, committees), LoadData(stored).rows)
    ensures multiset(UpdateTable(stored, chambers, days, committees))[row]
            == if Selected(chambers, days, committees, row) then multiset(LoadData(stored).rows)[row] else 0
  {
    UpdateTableIsConjunction(stored, chambers, days, committees);
    FilterIsSubsequence(LoadData(stored).rows, SelectedBy(chambers, days, committees));
    FilterMultiplicity(LoadData(stored).rows, SelectedBy(chambers, days, committees), row);
  }

  /** With nothing picked in any dropdown every loaded row is shown. */
  lemma UpdateTableUnfiltered(stored: Option<Table>, chambers: Selection, days: Selection,
                              committees: Selection)
    requires !Active(chambers) && !Active(days) && !Active(committees)
    ensures UpdateTable(stored, chambers, days, committees)
            == if Empty(LoadData(stored)) then [] else LoadData(stored).rows
  {
  }

  /** An empty loaded table shows nothing, whatever is picked. */
  lemma UpdateTableEmpty(stored: Option<Table>, chambers: Selection, days: Selection,
                         committees: Selection)
    requires Empty(LoadData(stored))
    ensures UpdateTable(stored, chambers, days, committees) == []
  {
  }

  // ---------------------------------------------------------------- dropdown options (38, 45, 52)

  /** A dropdown entry: its "label" (here `display`) and its "value". */
  datatype DropdownOption = DropdownOption(display: string, value: string)

  /** The texts of column `col`, row by row; rows without the column are skipped. */
  function ColumnValues(rows: seq<Row>, col: string): (vs: seq<string>)
    ensures forall v :: v in vs <==> exists i :: 0 <= i < |rows| && col in rows[i] && rows[i][col] == v
  {
    if rows == [] then []
    else
      var rest := ColumnValues(rows[1..], col);
      assert forall i :: 0 < i < |rows| ==> rows[i] == rows[1..][i - 1];
      (if col in rows[0] then [rows[0][col]] else []) + rest
  }

  function OptionsOf(values: seq<string>): (opts: seq<DropdownOption>)
    ensures |opts| == |values|
    ensures forall i :: 0 <= i < |opts| ==> opts[i] == DropdownOption(values[i], values[i])
  {
    if values == [] then [] else [DropdownOption(values[0], values[0])] + OptionsOf(values[1..])
  }

  /** One option per distinct value of the column, labelled by that value; none for an
      empty table. */
  function Options(t: Table, col: string): (opts: seq<DropdownOption>)
    ensures Empty(t) ==> opts == []
    ensures forall i :: 0 <= i < |opts| ==>
              opts[i].display == opts[i].value && opts[i].value in ColumnValues(t.rows, col)
  {
    if Empty(t) then [] else OptionsOf(Distinct(ColumnValues(t.rows, col)))
  }

  /** The options of a non-empty table are labelled by their values, name each value of the
      column once, and name all of them. */
  lemma OptionsDistinct(t: Table, col: string, v: string)
    requires !Empty(t)
    ensures var opts := Options(t, col);
            (forall i, j :: 0 <= i < j < |opts| ==> opts[i].value != opts[j].value)
            && (forall i :: 0 <= i < |opts| ==> opts[i].display == opts[i].value)
            && (v in ColumnValues(t.rows, col) <==> exists i :: 0 <= i < |opts| && opts[i].value == v)
  {
    var vs := ColumnValues(t.rows, col);
    var d := Distinct(vs);
    var opts := Options(t, col);
    assert forall i :: 0 <= i < |opts| ==> opts[i].value == d[i];
    if v in vs {
      var k :| 0 <= k < |vs| && vs[k] == v;
      var i :| 0 <= i < |d| && d[i] == v;
      assert opts[i].value == v;
    }
  }

  /** The options come in the order in which their values first appear in the column. */
  lemma OptionsInTableOrder(t: Table, col: string)
    requires !Empty(t)
    ensures var opts := Options(t, col);
            var vs := ColumnValues(t.rows, col);
            forall i, j :: 0 <= i < j < |opts| ==>
              opts[i].value in vs && opts[j].value in vs
              && FirstIndex(vs, opts[i].value) < FirstIndex(vs, opts[j].value)
  {
    var vs := ColumnValues(t.rows, col);
    var opts := Options(t, col);
    DistinctFirstAppearanceOrder(vs);
    assert forall i :: 0 <= i < |opts| ==> opts[i].value == Distinct(vs)[i];
  }

  /** An empty table offers nothing to pick. */
  lemma OptionsEmpty(t: Table, col: string)
    requires Empty(t)
    ensures Options(t, col) == []
  {
  }
}
