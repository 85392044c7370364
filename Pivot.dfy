/** The heatmap's data: a pandas pivot table that aggregates by size and
    fills missing pairs with zero. It is a dense grid with one row per
    distinct value of column y, one column per distinct value of column x,
    and in each cell the number of records holding that pair of values (zero
    where none does). */
module Pivot {
  import opened Tables

  /** A contingency grid: row labels, column labels and the counts, one
      inner sequence per row label. */
  datatype Grid<V> = Grid(index: seq<V>, columns: seq<V>, cells: seq<seq<nat>>)

  function Sum(s: seq<nat>): nat {
    if s == [] then 0 else Sum(s[..|s| - 1]) + s[|s| - 1]
  }

  /** The sum of every cell of a grid. */
  function Total(m: seq<seq<nat>>): nat {
    if m == [] then 0 else Total(m[..|m| - 1]) + Sum(m[|m| - 1])
  }

  /** For each key in turn, the number of records holding it in column c. */
  function Counts<V(==,!new)>(rows: seq<Row<V>>, c: Column, keys: seq<V>): (r: seq<nat>)
    requires HasColumn(rows, c)
    ensures |r| == |keys|
  {
    if keys == [] then []
    else Counts(rows, c, keys[..|keys| - 1]) + [|Select(rows, c, [keys[|keys| - 1]])|]
  }

  /** Entry j of the counts is the number of records holding key j. */
  lemma {:induction false} CountsAt<V(!new)>(rows: seq<Row<V>>, c: Column, keys: seq<V>, j: nat)
    requires HasColumn(rows, c) && j < |keys|
    ensures Counts(rows, c, keys)[j] == |Select(rows, c, [keys[j]])|
  {
    if j < |keys| - 1 {
      CountsAt(rows, c, keys[..|keys| - 1], j);
    }
  }

  /** One grid row per y key: the counts, by x key, of the records holding
      that y key. */
  function Cells<V(==,!new)>(rows: seq<Row<V>>, y: Column, ys: seq<V>, x: Column, xs: seq<V>): (m: seq<seq<nat>>)
    requires HasColumn(rows, y) && HasColumn(rows, x)
    ensures |m| == |ys| && forall i :: 0 <= i < |m| ==> |m[i]| == |xs|
  {
    if ys == [] then []
    else Cells(rows, y, ys[..|ys| - 1], x, xs) + [Counts(Select(rows, y, [ys[|ys| - 1]]), x, xs)]
  }

  /** Row i of the grid counts, by x key, the records holding y key i. */
  lemma {:induction false} CellsAt<V(!new)>(rows: seq<Row<V>>, y: Column, ys: seq<V>, x: Column, xs: seq<V>, i: nat)
    requires HasColumn(rows, y) && HasColumn(rows, x) && i < |ys|
    ensures Cells(rows, y, ys, x, xs)[i] == Counts(Select(rows, y, [ys[i]]), x, xs)
  {
    if i < |ys| - 1 {
      CellsAt(rows, y, ys[..|ys| - 1], x, xs, i);
    }
  }

  /** The grid of record counts by (y, x) value pair. Both axes list each
      observed value once; every row has a cell for every column label. */
  function PivotSize<V(==,!new)>(rows: seq<Row<V>>, y: Column, x: Column): (g: Grid<V>)
    requires HasColumn(rows, y) && HasColumn(rows, x)
    ensures |g.cells| == |g.index| && forall i :: 0 <= i < |g.cells| ==> |g.cells[i]| == |g.columns|
    ensures Distinct(g.index) && forall v :: v in g.index <==> v in ColumnValues(rows, y)
    ensures Distinct(g.columns) && forall v :: v in g.columns <==> v in ColumnValues(rows, x)
    ensures g.index == [] <==> rows == []
    ensures g.columns == [] <==> rows == []
  {
    var ys := Unique(ColumnValues(rows, y));
    var xs := Unique(ColumnValues(rows, x));
    assert rows != [] ==> ColumnValues(rows, y)[0] in ys && ColumnValues(rows, x)[0] in xs;
    Grid(ys, xs, Cells(rows, y, ys, x, xs))
  }

  /** The (y, x) value pair of each record, in record order. */
  function Pairs<V>(rows: seq<Row<V>>, y: Column, x: Column): (r: seq<(V, V)>)
    requires HasColumn(rows, y) && HasColumn(rows, x)
    ensures |r| == |rows|
  {
    seq(|rows|, i requires 0 <= i < |rows| => (rows[i][y], rows[i][x]))
  }

  /** One more record at the end: selecting y = a and then x = b keeps it
      exactly when it holds the pair (a, b). */
  lemma PairSelectSnoc<V(!new)>(init: seq<Row<V>>, last: Row<V>, y: Column, a: V, x: Column, b: V)
    requires HasColumn(init + [last], y) && HasColumn(init + [last], x)
    ensures |Select(Select(init + [last], y, [a]), x, [b])|
         == |Select(Select(init, y, [a]), x, [b])| + (if last[y] == a && last[x] == b then 1 else 0)
  {
    SelectSnoc(init, last, y, [a]);
    if last[y] == a {
      SelectSnoc(Select(init, y, [a]), last, x, [b]);
    }
  }

  lemma PairsSnoc<V>(init: seq<Row<V>>, last: Row<V>, y: Column, x: Column)
    requires HasColumn(init + [last], y) && HasColumn(init + [last], x)
    ensures Pairs(init + [last], y, x) == Pairs(init, y, x) + [(last[y], last[x])]
  {
  }

  /** Selecting y = a and then x = b counts the occurrences of the pair
      (a, b) among the records. */
  lemma {:induction false} PairCount<V(!new)>(rows: seq<Row<V>>, y: Column, a: V, x: Column, b: V)
    requires HasColumn(rows, y) && HasColumn(rows, x)
    ensures |Select(Select(rows, y, [a]), x, [b])| == multiset(Pairs(rows, y, x))[(a, b)]
  {
    if rows != [] {
      var init, last := rows[..|rows| - 1], rows[|rows| - 1];
      assert init + [last] == rows;
      PairCount(init, y, a, x, b);
      PairSelectSnoc(init, last, y, a, x, b);
      PairsSnoc(init, last, y, x);
    }
  }

  /** Selecting y = a and then x = b keeps something exactly when some
      record holds the pair (a, b). */
  lemma PairPresent<V(!new)>(rows: seq<Row<V>>, y: Column, a: V, x: Column, b: V)
    requires HasColumn(rows, y) && HasColumn(rows, x)
    ensures |Select(Select(rows, y, [a]), x, [b])| > 0 <==> exists row :: row in rows && row[y] == a && row[x] == b
  {
    var picked := Select(Select(rows, y, [a]), x, [b]);
    if |picked| > 0 {
      assert picked[0] in picked;
    }
    if exists row :: row in rows && row[y] == a && row[x] == b {
      var row :| row in rows && row[y] == a && row[x] == b;
      assert row in picked;
    }
  }

  /** Each cell is the number of records with that row label in y and that
      column label in x; it is non-zero exactly when some record has the
      pair. */
  lemma PivotCell<V(!new)>(rows: seq<Row<V>>, y: Column, x: Column, i: nat, j: nat)
    requires HasColumn(rows, y) && HasColumn(rows, x)
    requires i < |Unique(ColumnValues(rows, y))| && j < |Unique(ColumnValues(rows, x))|
    ensures var g := PivotSize(rows, y, x);
      && g.cells[i][j] == multiset(Pairs(rows, y, x))[(g.index[i], g.columns[j])]
      && (g.cells[i][j] > 0 <==> exists row :: row in rows && row[y] == g.index[i] && row[x] == g.columns[j])
  {
    var g := PivotSize(rows, y, x);
    var a, b := g.index[i], g.columns[j];
    CellsAt(rows, y, g.index, x, g.columns, i);
    CountsAt(Select(rows, y, [a]), x, g.columns, j);
    PairCount(rows, y, a, x, b);
    PairPresent(rows, y, a, x, b);
  }

  /** Counting each of a list of distinct keys separately adds up to
      selecting on all of them at once. */
  lemma {:induction false} CountsSum<V(!new)>(rows: seq<Row<V>>, c: Column, keys: seq<V>)
    requires HasColumn(rows, c) && Distinct(keys)
    ensures Sum(Counts(rows, c, keys)) == |Select(rows, c, keys)|
  {
    if keys == [] {
      SelectNone(rows, c);
    } else {
      var init, k := keys[..|keys| - 1], keys[|keys| - 1];
      assert init + [k] == keys;
      CountsSum(rows, c, init);
      SelectSplit(rows, c, init, k);
    }
  }

  /** Summing row by row gives the grid's total. */
  lemma {:induction false} TotalBySums(m: seq<seq<nat>>, s: seq<nat>)
    requires |m| == |s| && forall i :: 0 <= i < |m| ==> Sum(m[i]) == s[i]
    ensures Total(m) == Sum(s)
  {
    if m != [] {
      TotalBySums(m[..|m| - 1], s[..|s| - 1]);
    }
  }

  /** Every record holds in column c one of the keys that cover c's values. */
  lemma Covered<V>(rows: seq<Row<V>>, c: Column, keys: seq<V>)
    requires HasColumn(rows, c)
    requires forall v :: v in ColumnValues(rows, c) ==> v in keys
    ensures forall row :: row in rows ==> row[c] in keys
  {
    forall row | row in rows ensures row[c] in keys {
      var i :| 0 <= i < |rows| && rows[i] == row;
      assert ColumnValues(rows, c)[i] == row[c];
    }
  }

  /** Each grid row sums to the number of records with that row label. */
  lemma PivotRowSum<V(!new)>(rows: seq<Row<V>>, y: Column, x: Column, i: nat)
    requires HasColumn(rows, y) && HasColumn(rows, x)
    requires i < |Unique(ColumnValues(rows, y))|
    ensures var g := PivotSize(rows, y, x);
      Sum(g.cells[i]) == |Select(rows, y, [g.index[i]])|
  {
    var g := PivotSize(rows, y, x);
    var sub := Select(rows, y, [g.index[i]]);
    CellsAt(rows, y, g.index, x, g.columns, i);
    CountsSum(sub, x, g.columns);
    Covered(rows, x, g.columns);
    SelectAll(sub, x, g.columns);
  }

  /** The cells add up to the number of records: every record is counted in
      exactly one cell. */
  lemma PivotTotal<V(!new)>(rows: seq<Row<V>>, y: Column, x: Column)
    requires HasColumn(rows, y) && HasColumn(rows, x)
    ensures Total(PivotSize(rows, y, x).cells) == |rows|
  {
    var g := PivotSize(rows, y, x);
    forall i | 0 <= i < |g.cells| ensures Sum(g.cells[i]) == Counts(rows, y, g.index)[i] {
      PivotRowSum(rows, y, x, i);
      CountsAt(rows, y, g.index, i);
    }
    TotalBySums(g.cells, Counts(rows, y, g.index));
    CountsSum(rows, y, g.index);
    Covered(rows, y, g.index);
    SelectAll(rows, y, g.index);
  }
}
