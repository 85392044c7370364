/** The sidebar filters: one multiselect per categorical column, offering
    that column's distinct values in the unfiltered table, and the loop that
    narrows the table one column at a time. Together they select the records
    that satisfy an AND, across columns, of ORs over each column's picked
    values. */
module Filters {
  import opened Tables

  /** One entry of the filter dictionary: a categorical column and the values
      picked for it in its multiselect. */
  datatype Criterion<V> = Criterion(column: Column, picked: seq<V>)

  /** The filter dictionary, in insertion order. */
  type FilterSet<V> = seq<Criterion<V>>

  /** The categorical columns, in table order (what `select_dtypes` with
      include `object` and `category` yields). */
  function CategoricalColumns(columns: seq<Column>, categorical: set<Column>): (r: seq<Column>)
    ensures forall c :: c in r <==> c in columns && c in categorical
    ensures IsSubsequence(r, columns)
  {
    if columns == [] then []
    else
      var init, last := columns[..|columns| - 1], columns[|columns| - 1];
      assert init + [last] == columns;
      var kept := CategoricalColumns(init, categorical);
      if last in categorical then
        assert (kept + [last])[..|kept|] == kept;
        kept + [last]
      else kept
  }

  /** What the user asked for in the multiselect of column c; an untouched
      multiselect gives the empty list. */
  function Wanted<V>(user: map<Column, seq<V>>, c: Column): seq<V> {
    if c in user then user[c] else []
  }

  /** What a multiselect hands back: the requested values that are among its
      options, in the order they were requested. */
  function Offered<V(==,!new)>(options: seq<V>, wanted: seq<V>): (r: seq<V>)
    ensures forall v :: v in r <==> v in wanted && v in options
    ensures IsSubsequence(r, wanted)
  {
    if wanted == [] then []
    else
      var init, last := wanted[..|wanted| - 1], wanted[|wanted| - 1];
      assert init + [last] == wanted;
      var kept := Offered(options, init);
      if last in options then
        assert (kept + [last])[..|kept|] == kept;
        kept + [last]
      else kept
  }

  /** The filter dictionary for the given columns of t, in their order: each
      column paired with the values picked from a multiselect whose options
      are that column's distinct values in t. */
  function FilterSetFor<V(==,!new)>(t: Table<V>, cols: seq<Column>, user: map<Column, seq<V>>): (fs: FilterSet<V>)
    requires Valid(t) && forall c :: c in cols ==> c in t.columns
    ensures |fs| == |cols|
    ensures forall i :: 0 <= i < |fs| ==>
              && fs[i].column == cols[i]
              && HasColumn(t.rows, cols[i])
              && fs[i].picked == Offered(Unique(ColumnValues(t.rows, cols[i])), Wanted(user, cols[i]))
  {
    if cols == [] then []
    else
      var n := |cols| - 1;
      var c := cols[n];
      ValidHasColumn(t, c);
      var init := FilterSetFor(t, cols[..n], user);
      var k := Criterion(c, Offered(Unique(ColumnValues(t.rows, c)), Wanted(user, c)));
      assert forall i :: 0 <= i < n ==> (init + [k])[i] == init[i] && cols[..n][i] == cols[i];
      init + [k]
  }

  /** The filter dictionary a run builds from t and the user's requests:
      one entry per categorical column, in column order, holding the
      requested values that occur in that column of the unfiltered table. */
  function FilterSetOf<V(==,!new)>(t: Table<V>, user: map<Column, seq<V>>): (fs: FilterSet<V>)
    requires Valid(t)
    ensures |fs| == |CategoricalColumns(t.columns, t.categorical)|
    ensures forall i :: 0 <= i < |fs| ==>
              && fs[i].column == CategoricalColumns(t.columns, t.categorical)[i]
              && fs[i].column in t.columns
              && HasColumn(t.rows, fs[i].column)
              && fs[i].picked == Offered(Unique(ColumnValues(t.rows, fs[i].column)), Wanted(user, fs[i].column))
  {
    FilterSetFor(t, CategoricalColumns(t.columns, t.categorical), user)
  }

  /** A value is picked for a column exactly when the user requested it and
      it occurs in that column. */
  lemma FilterSetPicks<V(!new)>(t: Table<V>, user: map<Column, seq<V>>, i: nat, v: V)
    requires Valid(t) && i < |FilterSetOf(t, user)|
    ensures var k := FilterSetOf(t, user)[i];
      v in k.picked <==> v in Wanted(user, k.column) && v in ColumnValues(t.rows, k.column)
  {
  }

  /** Builds the filter dictionary: for each categorical column, in order,
      the values picked from a multiselect whose options are that column's
      distinct values in the unfiltered table. */
  method BuildFilterSet<V(==,!new)>(t: Table<V>, user: map<Column, seq<V>>) returns (fs: FilterSet<V>)
    requires Valid(t)
    ensures fs == FilterSetOf(t, user)
  {
    var cats := CategoricalColumns(t.columns, t.categorical);
    fs := [];
    for i := 0 to |cats|
      invariant fs == FilterSetFor(t, cats[..i], user)
    {
      var c := cats[i];
      ValidHasColumn(t, c);
      fs := fs + [Criterion(c, Offered(Unique(ColumnValues(t.rows, c)), Wanted(user, c)))];
      assert cats[..i + 1][..i] == cats[..i];
    }
    assert cats[..|cats|] == cats;
  }

  /** A record passes one criterion when nothing is picked for its column or
      its value there is one of the picked values. */
  ghost predicate Passes<V>(row: Row<V>, k: Criterion<V>) {
    |k.picked| == 0 || (k.column in row && row[k.column] in k.picked)
  }

  /** A record passes the whole filter set when it passes every criterion. */
  ghost predicate Admits<V>(fs: FilterSet<V>, row: Row<V>) {
    forall k :: k in fs ==> Passes(row, k)
  }

  /** The reference filter: the AND-of-ORs predicate applied to every record
      in one pass. Each admitted record is kept in its original place;
      nothing else is. */
  ghost function FilterRows<V(!new)>(rows: seq<Row<V>>, fs: FilterSet<V>): (r: seq<Row<V>>)
    ensures forall row :: row in r <==> row in rows && Admits(fs, row)
    ensures IsSubsequence(r, rows)
  {
    if rows == [] then []
    else
      var init, last := rows[..|rows| - 1], rows[|rows| - 1];
      assert init + [last] == rows;
      var kept := FilterRows(init, fs);
      if Admits(fs, last) then
        assert (kept + [last])[..|kept|] == kept;
        kept + [last]
      else kept
  }

  /** Each admitted record is kept as often as it occurs; nothing else is
      kept. */
  lemma {:induction false} FilterMultiplicity<V(!new)>(rows: seq<Row<V>>, fs: FilterSet<V>, row: Row<V>)
    ensures multiset(FilterRows(rows, fs))[row] == if Admits(fs, row) then multiset(rows)[row] else 0
  {
    if rows != [] {
      var init, last := rows[..|rows| - 1], rows[|rows| - 1];
      assert init + [last] == rows;
      FilterMultiplicity(init, fs, row);
      FilterRowsSnoc(init, last, fs);
    }
  }

  /** Some record holds, in column c, a value the user requested for c. */
  ghost predicate Occurs<V>(t: Table<V>, user: map<Column, seq<V>>, c: Column) {
    exists r :: r in t.rows && c in r && r[c] in Wanted(user, c)
  }

  /** The user's requests, read directly: in every categorical column where
      some requested value occurs, the record's value is a requested one. */
  ghost predicate Meets<V>(t: Table<V>, user: map<Column, seq<V>>, row: Row<V>) {
    forall c :: c in t.categorical && c in row && Occurs(t, user, c) ==> row[c] in Wanted(user, c)
  }

  /** A requested value that occurs in column i's values is picked there. */
  lemma PickedWhenOccurs<V(!new)>(t: Table<V>, user: map<Column, seq<V>>, i: nat, r: Row<V>)
    requires Valid(t) && i < |FilterSetOf(t, user)| && r in t.rows
    ensures var k := FilterSetOf(t, user)[i];
      r[k.column] in Wanted(user, k.column) ==> r[k.column] in k.picked
  {
    var c := FilterSetOf(t, user)[i].column;
    var j :| 0 <= j < |t.rows| && t.rows[j] == r;
    assert ColumnValues(t.rows, c)[j] == r[c];
    FilterSetPicks(t, user, i, r[c]);
  }

  /** The dictionary a run builds admits a record of the table exactly when
      the record meets the user's requests. */
  lemma FilterSetAdmits<V(!new)>(t: Table<V>, user: map<Column, seq<V>>, row: Row<V>)
    requires Valid(t) && row in t.rows
    ensures Admits(FilterSetOf(t, user), row) <==> Meets(t, user, row)
  {
    var fs, cats := FilterSetOf(t, user), CategoricalColumns(t.columns, t.categorical);
    if Admits(fs, row) {
      forall c | c in t.categorical && c in row && Occurs(t, user, c)
        ensures row[c] in Wanted(user, c)
      {
        var i :| 0 <= i < |cats| && cats[i] == c;
        var r :| r in t.rows && c in r && r[c] in Wanted(user, c);
        PickedWhenOccurs(t, user, i, r);
        assert Passes(row, fs[i]);
        FilterSetPicks(t, user, i, row[c]);
      }
    }
    if Meets(t, user, row) {
      forall k | k in fs ensures Passes(row, k) {
        var i :| 0 <= i < |fs| && fs[i] == k;
        var c := k.column;
        ValidHasColumn(t, c);
        if |k.picked| > 0 {
          FilterSetPicks(t, user, i, k.picked[0]);
          var j :| 0 <= j < |t.rows| && ColumnValues(t.rows, c)[j] == k.picked[0];
          assert Occurs(t, user, c) by { assert t.rows[j] in t.rows; }
          PickedWhenOccurs(t, user, i, row);
        }
      }
    }
  }

  /** Filters that agree on every record give the same table. */
  lemma {:induction false} FilterCongruent<V(!new)>(rows: seq<Row<V>>, fs: FilterSet<V>, gs: FilterSet<V>)
    requires forall row :: row in rows ==> (Admits(fs, row) <==> Admits(gs, row))
    ensures FilterRows(rows, fs) == FilterRows(rows, gs)
  {
    if rows != [] {
      var init := rows[..|rows| - 1];
      assert init + [rows[|rows| - 1]] == rows;
      FilterCongruent(init, fs, gs);
    }
  }

  /** A filter set whose every selection is empty leaves the table as it is. */
  lemma {:induction false} FilterNothing<V(!new)>(rows: seq<Row<V>>, fs: FilterSet<V>)
    requires forall k :: k in fs ==> |k.picked| == 0
    ensures FilterRows(rows, fs) == rows
  {
    if rows != [] {
      var init := rows[..|rows| - 1];
      assert init + [rows[|rows| - 1]] == rows;
      FilterNothing(init, fs);
    }
  }

  /** The order of the criteria does not matter, nor does listing one twice:
      only which criteria there are. */
  lemma FilterOrderIrrelevant<V(!new)>(rows: seq<Row<V>>, fs: FilterSet<V>, gs: FilterSet<V>)
    requires forall k :: k in fs <==> k in gs
    ensures FilterRows(rows, fs) == FilterRows(rows, gs)
  {
    FilterCongruent(rows, fs, gs);
  }

  /** A criterion with an empty selection imposes no constraint. */
  lemma FilterUnconstrained<V(!new)>(rows: seq<Row<V>>, fs: FilterSet<V>, k: Criterion<V>)
    requires |k.picked| == 0
    ensures FilterRows(rows, fs + [k]) == FilterRows(rows, fs)
  {
    FilterCongruent(rows, fs + [k], fs);
  }

  /** Appending a criterion to the filter set adds one conjunct. */
  lemma AdmitsSnoc<V>(fs: FilterSet<V>, k: Criterion<V>, row: Row<V>)
    ensures Admits(fs + [k], row) <==> Admits(fs, row) && Passes(row, k)
  {
    assert k in fs + [k];
    assert forall k' :: k' in fs + [k] <==> k' in fs || k' == k;
  }

  /** One more record at the end of the table: the reference filter keeps
      it exactly when the filter set admits it. */
  lemma FilterRowsSnoc<V(!new)>(init: seq<Row<V>>, last: Row<V>, fs: FilterSet<V>)
    ensures FilterRows(init + [last], fs) == FilterRows(init, fs) + (if Admits(fs, last) then [last] else [])
  {
    assert (init + [last])[..|init|] == init;
  }

  /** Adding a criterion with a non-empty selection narrows the already
      filtered table by `isin` on that column. */
  lemma {:induction false} FilterStep<V(!new)>(rows: seq<Row<V>>, fs: FilterSet<V>, k: Criterion<V>)
    requires |k.picked| > 0 && HasColumn(rows, k.column)
    ensures HasColumn(FilterRows(rows, fs), k.column)
    ensures FilterRows(rows, fs + [k]) == Select(FilterRows(rows, fs), k.column, k.picked)
  {
    if rows != [] {
      var init, last := rows[..|rows| - 1], rows[|rows| - 1];
      assert init + [last] == rows;
      FilterStep(init, fs, k);
      FilterRowsSnoc(init, last, fs);
      FilterRowsSnoc(init, last, fs + [k]);
      var before := FilterRows(init, fs);
      AdmitsSnoc(fs, k, last);
      if Admits(fs, last) {
        SelectSnoc(before, last, k.column, k.picked);
      }
    }
  }

  /** The filter loop: visits the dictionary in insertion order and, for
      each column with a non-empty selection, replaces the table by the
      records whose value there is selected. The result is the reference
      filter of the original table, with the same columns. */
  method ApplyFilters<V(==,!new)>(t: Table<V>, fs: FilterSet<V>) returns (r: Table<V>)
    requires Valid(t)
    requires forall k :: k in fs ==> k.column in t.columns
    ensures r.columns == t.columns && r.categorical == t.categorical
    ensures r.rows == FilterRows(t.rows, fs)
    ensures Valid(r)
  {
    r := t;
    FilterNothing(t.rows, fs[..0]);
    for i := 0 to |fs|
      invariant r.columns == t.columns && r.categorical == t.categorical
      invariant r.rows == FilterRows(t.rows, fs[..i])
      invariant Valid(r)
    {
      var k := fs[i];
      assert fs[..i + 1] == fs[..i] + [k];
      if |k.picked| > 0 {
        ValidHasColumn(t, k.column);
        FilterStep(t.rows, fs[..i], k);
        r := r.(rows := Select(r.rows, k.column, k.picked));
      } else {
        FilterUnconstrained(t.rows, fs[..i], k);
      }
    }
    assert fs[..|fs|] == fs;
  }
}
