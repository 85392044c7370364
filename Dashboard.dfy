/** One run of the dashboard over a loaded table: build the sidebar filters,
    narrow the table, pre-fill the chart widgets, and compute the heatmap
    grid for the chosen axes. */
module Dashboard {
  import opened Tables
  import opened Filters
  import opened Defaults
  import opened Pivot

  /** What one run hands to the display: the filtered table, the default
      pie-chart columns, the default heatmap axis positions and the heatmap
      grid. */
  datatype View<V> = View(table: Table<V>, pieDefaults: seq<Column>, xDefault: nat, yDefault: nat, heatmap: Grid<V>)

  /** The pipeline, for the user's filter requests and the heatmap axes the
      user settled on (both columns of the table). */
  method Refresh<V(==,!new)>(t: Table<V>, user: map<Column, seq<V>>, x: Column, y: Column) returns (v: View<V>)
    requires Valid(t) && x in t.columns && y in t.columns
    ensures Valid(v.table) && v.table.columns == t.columns && v.table.categorical == t.categorical
    ensures v.table.rows == FilterRows(t.rows, FilterSetOf(t, user))
    ensures forall row :: row in v.table.rows <==> row in t.rows && Meets(t, user, row)
    ensures IsSubsequence(v.table.rows, t.rows)
    ensures (forall c :: c in user ==> user[c] == []) ==> v.table == t
    ensures v.pieDefaults == DefaultPieColumns(t.columns)
    ensures v.xDefault == DefaultXIndex(t.columns) && v.yDefault == DefaultYIndex(t.columns)
    ensures HasColumn(v.table.rows, y) && HasColumn(v.table.rows, x)
    ensures v.heatmap == PivotSize(v.table.rows, y, x)
    ensures Total(v.heatmap.cells) == |v.table.rows|
    ensures v.heatmap.index == [] <==> v.table.rows == []
  {
    var fs := BuildFilterSet(t, user);
    if forall c :: c in user ==> user[c] == [] {
      forall k | k in fs ensures |k.picked| == 0 {
        var i :| 0 <= i < |fs| && fs[i] == k;
        assert Wanted(user, k.column) == [];
      }
      FilterNothing(t.rows, fs);
    }
    var view := ApplyFilters(t, fs);
    forall row | row in t.rows ensures Admits(fs, row) <==> Meets(t, user, row) {
      FilterSetAdmits(t, user, row);
    }
    ValidHasColumn(view, x);
    ValidHasColumn(view, y);
    var grid := PivotSize(view.rows, y, x);
    PivotTotal(view.rows, y, x);
    v := View(view, DefaultPieColumns(view.columns), DefaultXIndex(view.columns), DefaultYIndex(view.columns), grid);
  }
}
