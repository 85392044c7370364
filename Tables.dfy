/** The table the dashboard loads from an uploaded workbook, and the few
    table primitives that the filter and pivot steps are built from:
    projecting a column, the distinct values of a column, and boolean-mask
    selection with `isin`. */
module Tables {

  /** A column label, as read from the workbook's header row. */
  type Column = string

  /** One record: the value it holds in each column. Cell values are
      abstract; all the model needs of them is equality. */
  type Row<V> = map<Column, V>

  /** A loaded table: its column labels in order, the labels whose inferred
      kind is categorical (text or category dtype), and its records in order. */
  datatype Table<V> = Table(columns: seq<Column>, categorical: set<Column>, rows: seq<Row<V>>)

  ghost predicate Distinct<T>(s: seq<T>) {
    forall i, j :: 0 <= i < j < |s| ==> s[i] != s[j]
  }

  /** Every record has a value in column c. */
  ghost predicate HasColumn<V>(rows: seq<Row<V>>, c: Column) {
    forall row :: row in rows ==> c in row
  }

  /** A well-formed table: unique column labels (the loader renames repeated
      headers), categorical columns are columns, and every record has a value
      for exactly the table's columns. */
  ghost predicate Valid<V>(t: Table<V>) {
    && Distinct(t.columns)
    && (forall c :: c in t.categorical ==> c in t.columns)
    && (forall row :: row in t.rows ==> row.Keys == set c | c in t.columns)
  }

  lemma ValidHasColumn<V>(t: Table<V>, c: Column)
    requires Valid(t) && c in t.columns
    ensures HasColumn(t.rows, c)
  {
    forall row | row in t.rows ensures c in row {
      assert c in (set c' | c' in t.columns);
    }
  }

  /** `a` is `b` with some entries dropped: same order, nothing repeated,
      nothing added. */
  ghost predicate IsSubsequence<T>(a: seq<T>, b: seq<T>)
    decreases |b|
  {
    if a == [] then true
    else if b == [] then false
    else (a[|a| - 1] == b[|b| - 1] && IsSubsequence(a[..|a| - 1], b[..|b| - 1]))
         || IsSubsequence(a, b[..|b| - 1])
  }

  /** A subsequence never holds an entry more often than the sequence it is
      drawn from. */
  lemma {:induction false} SubsequenceMultiset<T>(a: seq<T>, b: seq<T>)
    requires IsSubsequence(a, b)
    ensures multiset(a) <= multiset(b)
    decreases |b|
  {
    if a != [] {
      var a', b' := a[..|a| - 1], b[..|b| - 1];
      assert a == a' + [a[|a| - 1]];
      assert b == b' + [b[|b| - 1]];
      if a[|a| - 1] == b[|b| - 1] && IsSubsequence(a', b') {
        SubsequenceMultiset(a', b');
      } else {
        SubsequenceMultiset(a, b');
      }
    }
  }

  /** The values of column c, one per record, in record order (`df[c]`). */
  function ColumnValues<V>(rows: seq<Row<V>>, c: Column): (r: seq<V>)
    requires HasColumn(rows, c)
    ensures |r| == |rows|
    ensures forall i :: 0 <= i < |rows| ==> r[i] == rows[i][c]
  {
    seq(|rows|, i requires 0 <= i < |rows| => rows[i][c])
  }

  /** `Series.unique()`: each distinct value once, in order of first
      appearance. */
  function Unique<T(==,!new)>(s: seq<T>): (r: seq<T>)
    ensures Distinct(r)
    ensures forall x :: x in r <==> x in s
    ensures IsSubsequence(r, s)
  {
    if s == [] then []
    else
      var init, last := Unique(s[..|s| - 1]), s[|s| - 1];
      assert s[..|s| - 1] + [last] == s;
      if last in init then init
      else
        assert (init + [last])[..|init|] == init;
        init + [last]
  }

  /** The distinct values come in order of first appearance: a value listed
      before another occurs in s before every occurrence of the other. */
  lemma {:induction false} UniqueOrder<T(!new)>(s: seq<T>)
    ensures forall i, j, q :: 0 <= i < j < |Unique(s)| && 0 <= q < |s| && s[q] == Unique(s)[j] ==> Unique(s)[i] in s[..q]
  {
    if s != [] {
      var init, last := s[..|s| - 1], s[|s| - 1];
      assert init + [last] == s;
      UniqueOrder(init);
      var r', r := Unique(init), Unique(s);
      assert r == if last in r' then r' else r' + [last];
      forall i, j, q | 0 <= i < j < |r| && 0 <= q < |s| && s[q] == r[j]
        ensures r[i] in s[..q]
      {
        assert r[i] == r'[i] && r[i] in init;
        if q < |init| {
          assert s[..q] == init[..q] && s[q] == init[q];
          if j < |r'| {
            assert r[j] == r'[j];
          }
        } else {
          assert s[..q] == init;
        }
      }
    }
  }

  /** Boolean-mask selection with `isin`: the records whose value in column c
      is one of `values`, in their original order. */
  function Select<V(==,!new)>(rows: seq<Row<V>>, c: Column, values: seq<V>): (r: seq<Row<V>>)
    requires HasColumn(rows, c)
    ensures forall row :: row in r <==> row in rows && row[c] in values
    ensures IsSubsequence(r, rows)
  {
    if rows == [] then []
    else
      var init, last := rows[..|rows| - 1], rows[|rows| - 1];
      assert init + [last] == rows;
      var kept := Select(init, c, values);
      if last[c] in values then
        assert (kept + [last])[..|kept|] == kept;
        kept + [last]
      else kept
  }

  /** One more record at the end: `isin` keeps it exactly when its value is
      selected. */
  lemma SelectSnoc<V(!new)>(init: seq<Row<V>>, last: Row<V>, c: Column, values: seq<V>)
    requires HasColumn(init + [last], c)
    ensures Select(init + [last], c, values) == Select(init, c, values) + (if last[c] in values then [last] else [])
  {
    assert (init + [last])[..|init|] == init;
  }

  /** A selected record is kept as often as it occurs; an unselected one
      not at all. */
  lemma {:induction false} SelectMultiplicity<V(!new)>(rows: seq<Row<V>>, c: Column, values: seq<V>, row: Row<V>)
    requires HasColumn(rows, c)
    ensures multiset(Select(rows, c, values))[row] ==
              if row in rows && row[c] in values then multiset(rows)[row] else 0
  {
    if rows != [] {
      var init, last := rows[..|rows| - 1], rows[|rows| - 1];
      assert init + [last] == rows;
      SelectMultiplicity(init, c, values, row);
      SelectSnoc(init, last, c, values);
    }
  }

  /** Selecting on no value keeps no record. */
  lemma {:induction false} SelectNone<V(!new)>(rows: seq<Row<V>>, c: Column)
    requires HasColumn(rows, c)
    ensures Select(rows, c, []) == []
  {
    if rows != [] {
      var init, last := rows[..|rows| - 1], rows[|rows| - 1];
      assert init + [last] == rows;
      SelectNone(init, c);
      SelectSnoc(init, last, c, []);
    }
  }

  /** Selecting on every value a column holds keeps the whole table. */
  lemma {:induction false} SelectAll<V(!new)>(rows: seq<Row<V>>, c: Column, values: seq<V>)
    requires HasColumn(rows, c)
    requires forall row :: row in rows ==> row[c] in values
    ensures Select(rows, c, values) == rows
  {
    if rows != [] {
      var init := rows[..|rows| - 1];
      assert init + [rows[|rows| - 1]] == rows;
      SelectAll(init, c, values);
    }
  }

  /** Selecting on one more value that is new adds exactly the records that
      hold that value, each as often as it occurs; the count grows by theirs. */
  lemma {:induction false} SelectSplit<V(!new)>(rows: seq<Row<V>>, c: Column, values: seq<V>, v: V)
    requires HasColumn(rows, c)
    requires v !in values
    ensures multiset(Select(rows, c, values + [v])) == multiset(Select(rows, c, values)) + multiset(Select(rows, c, [v]))
    ensures |Select(rows, c, values + [v])| == |Select(rows, c, values)| + |Select(rows, c, [v])|
  {
    if rows != [] {
      var init, last := rows[..|rows| - 1], rows[|rows| - 1];
      assert init + [last] == rows;
      SelectSplit(init, c, values, v);
      SelectSnoc(init, last, c, values + [v]);
      SelectSnoc(init, last, c, values);
      SelectSnoc(init, last, c, [v]);
    }
    assert |multiset(Select(rows, c, values + [v]))| == |Select(rows, c, values + [v])|;
  }
}
