/** The default choices the dashboard pre-fills in its chart widgets: the
    pie-chart columns, and the positions of the heatmap's X and Y columns in
    the table's column list. */
module Defaults {
  import opened Tables

  const Gender: Column := "Gender"
  const Category: Column := "Category"

  /** The default pie-chart columns: "Gender" and then "Category", each only
      when the table has it. */
  function DefaultPieColumns(columns: seq<Column>): (r: seq<Column>)
    ensures forall c :: c in r <==> (c == Gender || c == Category) && c in columns
    ensures Distinct(r)
    ensures IsSubsequence(r, [Gender, Category])
  {
    var pie := (if Gender in columns then [Gender] else []) + (if Category in columns then [Category] else []);
    assert [Gender, Category][..1] == [Gender];
    pie
  }

  /** `Index.get_loc`: the position of a label in the column list. */
  function Position(columns: seq<Column>, name: Column): (r: nat)
    requires name in columns
    ensures r < |columns| && columns[r] == name
    ensures forall i :: 0 <= i < r ==> columns[i] != name
    ensures Distinct(columns) ==> forall i :: 0 <= i < |columns| && columns[i] == name ==> i == r
  {
    if columns[0] == name then 0 else 1 + Position(columns[1..], name)
  }

  /** The default X-axis index: where "Gender" is, or 0 without it. */
  function DefaultXIndex(columns: seq<Column>): (r: nat)
    ensures Gender in columns ==> r < |columns| && columns[r] == Gender
    ensures Gender !in columns ==> r == 0
  {
    if Gender in columns then Position(columns, Gender) else 0
  }

  /** The default Y-axis index: where "Category" is, or 1 without it. */
  function DefaultYIndex(columns: seq<Column>): (r: nat)
    ensures Category in columns ==> r < |columns| && columns[r] == Category
    ensures Category !in columns ==> r == 1
  {
    if Category in columns then Position(columns, Category) else 1
  }

  /** Both default indices name a column exactly when each axis either
      finds its column or falls back on an existing position: X needs
      "Gender" or at least one column, Y needs "Category" or at least two. */
  lemma DefaultIndicesInRange(columns: seq<Column>)
    ensures DefaultXIndex(columns) < |columns| <==> Gender in columns || |columns| >= 1
    ensures DefaultYIndex(columns) < |columns| <==> Category in columns || |columns| >= 2
  {
  }
}
