/** The column block of `extract_all_values` (src/main.rs:48-54): when the
    frame has a `TIME(PS)` column, that column is moved to the front and the
    rows are sorted by it in ascending order.

    The frame is a value: its column names in order and its rows, each row
    holding one cell per column. Cells are the exact reals of the `Numbers`
    module. */
module Columns {
  import opened Wrappers

  const TimeColumn := "TIME(PS)"

  /** Column names and rows, row `i` holding `rows[i][k]` in column
      `names[k]`. */
  datatype Frame = Frame(names: seq<string>, rows: seq<seq<real>>)

  /** No name occurs twice. */
  predicate Distinct(names: seq<string>)
  {
    forall i, j :: 0 <= i < j < |names| ==> names[i] != names[j]
  }

  /** A frame whose names are distinct, as a data frame's are, and whose rows
      have one cell per column. */
  predicate Valid(f: Frame)
  {
    Distinct(f.names) && forall i :: 0 <= i < |f.rows| ==> |f.rows[i]| == |f.names|
  }

  /** `names.iter().position(|x| *x == name)`: the index of the first
      occurrence of `name`, if any. */
  function Position(names: seq<string>, name: string): (r: Option<nat>)
    ensures r.None? <==> name !in names
    ensures r.Some? ==> r.value < |names| && names[r.value] == name && name !in names[..r.value]
  {
    if names == [] then None
    else if names[0] == name then Some(0)
    else match Position(names[1..], name)
      case None => None
      case Some(k) => Some(k + 1)
  }

  /** The first occurrence of `name` is at `i` when `names[i]` is `name`
      and no earlier name is. */
  lemma PositionAt(names: seq<string>, name: string, i: nat)
    requires i < |names| && names[i] == name && name !in names[..i]
    ensures Position(names, name) == Some(i)
  {
  }

  /** In a list of distinct names, the position of the name at `k` is `k`. */
  lemma PositionDistinct(names: seq<string>, k: nat)
    requires Distinct(names) && k < |names|
    ensures Position(names, names[k]) == Some(k)
  {
    var r := Position(names, names[k]).value;
    assert names[r] == names[k];
  }

  /** `s` with its element at `p` taken out and put in front, the others in
      their order: `remove(p)` followed by `insert(0, ..)`. */
  function MoveToFront<T>(s: seq<T>, p: nat): (r: seq<T>)
    requires p < |s|
    ensures |r| == |s| && r[0] == s[p] && r[1..] == s[..p] + s[p + 1..]
    ensures multiset(r) == multiset(s)
  {
    assert s == s[..p] + [s[p]] + s[p + 1..];
    [s[p]] + (s[..p] + s[p + 1..])
  }

  /** Where the element at `k` after `MoveToFront(s, p)` was before. */
  function MovedIndex(p: nat, k: nat): nat
  {
    if k == 0 then p else if k <= p then k - 1 else k
  }

  /** `MovedIndex` names the right element. */
  lemma MovedIndexAt<T>(s: seq<T>, p: nat, k: nat)
    requires p < |s| && k < |s|
    ensures MovedIndex(p, k) < |s| && MoveToFront(s, p)[k] == s[MovedIndex(p, k)]
  {
    if k > 0 {
      assert MoveToFront(s, p)[k] == MoveToFront(s, p)[1..][k - 1];
    }
  }

  /** The cells of `row` under the columns `cols`, in that order. */
  function SelectRow(names: seq<string>, row: seq<real>, cols: seq<string>): (r: seq<real>)
    requires |row| == |names| && forall c :: c in cols ==> c in names
    ensures |r| == |cols|
    ensures forall k :: 0 <= k < |cols| ==> r[k] == row[Position(names, cols[k]).value]
  {
    if cols == [] then []
    else [row[Position(names, cols[0]).value]] + SelectRow(names, row, cols[1..])
  }

  /** `df.select(&cols)`: the frame restricted to the columns `cols`, in that
      order. */
  function Select(f: Frame, cols: seq<string>): (r: Frame)
    requires Valid(f) && forall c :: c in cols ==> c in f.names
    ensures r.names == cols && |r.rows| == |f.rows|
    ensures forall i :: 0 <= i < |f.rows| ==> r.rows[i] == SelectRow(f.names, f.rows[i], cols)
  {
    Frame(cols, seq(|f.rows|, i requires 0 <= i < |f.rows| => SelectRow(f.names, f.rows[i], cols)))
  }

  /** Selecting the columns in the order where the one at `p` comes first
      moves each row's cell at `p` to the front. */
  lemma SelectMoved(names: seq<string>, row: seq<real>, p: nat)
    requires Distinct(names) && |row| == |names| && p < |names|
    ensures SelectRow(names, row, MoveToFront(names, p)) == MoveToFront(row, p)
  {
    var cols := MoveToFront(names, p);
    var r := SelectRow(names, row, cols);
    forall k | 0 <= k < |cols| ensures r[k] == MoveToFront(row, p)[k] {
      var q := MovedIndex(p, k);
      MovedIndexAt(names, p, k);
      MovedIndexAt(row, p, k);
      PositionDistinct(names, q);
    }
  }

  /** Every row has a first cell, the one the sort reads. */
  predicate Wide(rows: seq<seq<real>>)
  {
    forall i :: 0 <= i < |rows| ==> |rows[i]| > 0
  }

  /** Rows in ascending order of their first cell. */
  predicate SortedByTime(rows: seq<seq<real>>)
    requires Wide(rows)
  {
    forall i, j :: 0 <= i < j < |rows| ==> rows[i][0] <= rows[j][0]
  }

  /** `row` inserted into the sorted `rows` before the first row with a
      larger or equal first cell. */
  function InsertByTime(row: seq<real>, rows: seq<seq<real>>): (r: seq<seq<real>>)
    requires |row| > 0 && Wide(rows) && SortedByTime(rows)
    ensures Wide(r)
    ensures multiset(r) == multiset(rows) + multiset{row}
    ensures |r| == |rows| + 1 && (r[0] == row || (|rows| > 0 && r[0] == rows[0]))
  {
    if rows == [] || row[0] <= rows[0][0] then [row] + rows
    else
      assert rows == [rows[0]] + rows[1..];
      [rows[0]] + InsertByTime(row, rows[1..])
  }

  /** Insertion keeps the rows sorted. */
  lemma {:induction false} InsertByTimeSorted(row: seq<real>, rows: seq<seq<real>>)
    requires |row| > 0 && Wide(rows) && SortedByTime(rows)
    ensures SortedByTime(InsertByTime(row, rows))
  {
    if rows != [] && row[0] > rows[0][0] {
      var tail := InsertByTime(row, rows[1..]);
      InsertByTimeSorted(row, rows[1..]);
      assert forall j :: 0 <= j < |tail| ==> rows[0][0] <= tail[0][0] <= tail[j][0];
    }
  }

  /** `sort_in_place` on the first column, ascending: a sorted permutation of
      the rows. Which of two rows with equal times comes first is left
      open. */
  function SortByTime(rows: seq<seq<real>>): (r: seq<seq<real>>)
    requires Wide(rows)
    ensures Wide(r) && SortedByTime(r)
    ensures multiset(r) == multiset(rows)
  {
    if rows == [] then []
    else
      assert rows == [rows[0]] + rows[1..];
      var rest := SortByTime(rows[1..]);
      InsertByTimeSorted(rows[0], rest);
      InsertByTime(rows[0], rest)
  }

  /** Each row with its cell at `p` moved to the front. */
  function MoveCells(rows: seq<seq<real>>, p: nat): (r: seq<seq<real>>)
    requires forall i :: 0 <= i < |rows| ==> p < |rows[i]|
    ensures |r| == |rows| && forall i :: 0 <= i < |rows| ==> r[i] == MoveToFront(rows[i], p)
    ensures Wide(r)
  {
    seq(|rows|, i requires 0 <= i < |rows| => MoveToFront(rows[i], p))
  }

  /** The block at src/main.rs:48-54. Without a `TIME(PS)` column the frame
      is returned as it is. Otherwise that column comes first, the others
      follow in their order, and the rows, each with its time cell moved to
      the front, are a permutation of the original rows sorted by time. */
  method OrderColumns(df: Frame) returns (out: Frame)
    requires Valid(df)
    ensures TimeColumn !in df.names ==> out == df
    ensures TimeColumn in df.names ==>
              var p := Position(df.names, TimeColumn).value;
              out.names == [TimeColumn] + df.names[..p] + df.names[p + 1..] &&
              Wide(out.rows) && SortedByTime(out.rows) &&
              multiset(out.rows) == multiset(MoveCells(df.rows, p))
    ensures Valid(out) && multiset(out.names) == multiset(df.names)
  {
    var col := df.names;
    var pos := FindPosition(col, TimeColumn);
    out := df;
    if pos.Some? {
      var p := pos.value;
      col := col[..p] + col[p + 1..];
      col := [TimeColumn] + col;
      assert col == MoveToFront(df.names, p);
      MovedNamesPresent(df.names, p);
      out := Select(df, col);
      SelectMovedRows(df, p);
      out := Frame(out.names, SortByTime(out.rows));
      MovedFrame(df, p, out);
    }
  }

  /** Moving a name to the front keeps every name present. */
  lemma MovedNamesPresent(names: seq<string>, p: nat)
    requires p < |names|
    ensures forall c :: c in MoveToFront(names, p) ==> c in names
  {
    var m := MoveToFront(names, p);
    forall c | c in m ensures c in names {
      assert c in multiset(m);
    }
  }

  /** The frame the block builds when `TIME(PS)` is at `p`. */
  lemma MovedFrame(df: Frame, p: nat, out: Frame)
    requires Valid(df) && p < |df.names|
    requires out.names == MoveToFront(df.names, p)
    requires Wide(MoveCells(df.rows, p)) && out.rows == SortByTime(MoveCells(df.rows, p))
    ensures out.names == [df.names[p]] + df.names[..p] + df.names[p + 1..]
    ensures Wide(out.rows) && SortedByTime(out.rows)
    ensures multiset(out.rows) == multiset(MoveCells(df.rows, p))
    ensures Valid(out) && multiset(out.names) == multiset(df.names)
  {
    MovedStaysValid(df, p, out);
  }

  /** Selecting the columns with the one at `p` moved first moves each row's
      cell at `p` to the front. */
  lemma SelectMovedRows(df: Frame, p: nat)
    requires Valid(df) && p < |df.names|
    ensures Select(df, MoveToFront(df.names, p)).rows == MoveCells(df.rows, p)
  {
    var r := Select(df, MoveToFront(df.names, p));
    forall i | 0 <= i < |df.rows| ensures r.rows[i] == MoveToFront(df.rows[i], p) {
      SelectMoved(df.names, df.rows[i], p);
    }
  }

  /** A frame with the columns of `df` moved so that the one at `p` comes
      first, and with a permutation of the rows of `df` with their cells
      moved the same way, is valid. */
  lemma MovedStaysValid(df: Frame, p: nat, out: Frame)
    requires Valid(df) && p < |df.names|
    requires out.names == MoveToFront(df.names, p)
    requires multiset(out.rows) == multiset(MoveCells(df.rows, p))
    ensures Valid(out)
  {
    var names := df.names;
    forall i, j | 0 <= i < j < |out.names| ensures out.names[i] != out.names[j] {
      MovedIndexAt(names, p, i);
      MovedIndexAt(names, p, j);
    }
    forall i | 0 <= i < |out.rows| ensures |out.rows[i]| == |names| {
      assert out.rows[i] in multiset(MoveCells(df.rows, p));
      var k :| 0 <= k < |df.rows| && MoveCells(df.rows, p)[k] == out.rows[i];
    }
  }

  /** `col.iter().position(|x| *x == name)`, scanning the names in order. */
  method FindPosition(names: seq<string>, name: string) returns (r: Option<nat>)
    ensures r == Position(names, name)
  {
    var i := 0;
    while i < |names|
      invariant i <= |names| && name !in names[..i]
    {
      if names[i] == name {
        PositionAt(names, name, i);
        return Some(i);
      }
      assert names[..i + 1] == names[..i] + [names[i]];
      i := i + 1;
    }
    assert names[..i] == names;
    return None;
  }
}
