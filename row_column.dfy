/** The row-column (keyed columnar) transposition: the space-free,
    upper-cased text is padded with X to fill a grid with one column per key
    character, and the columns are read top to bottom in the stable ascending
    order of their key characters. */
module RowColumn {
  import opened Alphabet

  // ----- The column order: column indices sorted by their key characters -----

  /** Column i comes before column j: a smaller key character, or the same
      character and an earlier column (Python's sort is stable). */
  predicate Before(key: string, i: nat, j: nat)
    requires i < |key| && j < |key|
  {
    key[i] < key[j] || (key[i] == key[j] && i < j)
  }

  /** Every entry of `order` names one of the first n columns. */
  predicate InColumns(order: seq<nat>, n: nat) {
    forall j :: 0 <= j < |order| ==> order[j] < n
  }

  predicate SortedByKey(key: string, order: seq<nat>)
    requires InColumns(order, |key|)
  {
    forall a, b :: 0 <= a < b < |order| ==> Before(key, order[a], order[b])
  }

  /** Inserts column k into an order, after every column that comes before it. */
  function InsertColumn(key: string, order: seq<nat>, k: nat): (r: seq<nat>)
    requires k < |key| && InColumns(order, |key|)
    ensures |r| == |order| + 1
    ensures InColumns(r, |key|)
    ensures forall x :: x in r <==> x in order || x == k
  {
    if order == [] then [k]
    else if Before(key, k, order[0]) then [k] + order
    else
      assert order == [order[0]] + order[1..];
      [order[0]] + InsertColumn(key, order[1..], k)
  }

  /** The order in which the first n columns are read. */
  function ColumnOrder(key: string, n: nat): (order: seq<nat>)
    requires n <= |key|
    ensures |order| == n
    ensures InColumns(order, n)
  {
    if n == 0 then []
    else
      var prev := ColumnOrder(key, n - 1);
      var r := InsertColumn(key, prev, n - 1);
      assert forall j :: 0 <= j < |r| ==> r[j] in r;
      r
  }

  lemma {:induction false} InsertColumnMultiset(key: string, order: seq<nat>, k: nat)
    requires k < |key| && InColumns(order, |key|)
    ensures multiset(InsertColumn(key, order, k)) == multiset(order) + multiset{k}
  {
    if order != [] && !Before(key, k, order[0]) {
      InsertColumnMultiset(key, order[1..], k);
      assert order == [order[0]] + order[1..];
    }
  }

  lemma {:induction false} InsertColumnSorted(key: string, order: seq<nat>, k: nat)
    requires k < |key| && InColumns(order, |key|) && k !in order
    requires SortedByKey(key, order)
    ensures SortedByKey(key, InsertColumn(key, order, k))
  {
    if order != [] && !Before(key, k, order[0]) {
      var rest := order[1..];
      assert k !in rest;
      InsertColumnSorted(key, rest, k);
      var tail := InsertColumn(key, rest, k);
      assert Before(key, order[0], k);
      forall b | 0 <= b < |tail|
        ensures Before(key, order[0], tail[b])
      {
        assert tail[b] in tail;
        if tail[b] != k {
          assert tail[b] in rest;
        }
      }
    }
  }

  /** No column appears twice. */
  predicate DistinctColumns(order: seq<nat>) {
    forall i, j :: 0 <= i < j < |order| ==> order[i] != order[j]
  }

  lemma {:induction false} InsertColumnDistinct(key: string, order: seq<nat>, k: nat)
    requires k < |key| && InColumns(order, |key|) && k !in order && DistinctColumns(order)
    ensures DistinctColumns(InsertColumn(key, order, k))
  {
    if order == [] {
    } else if Before(key, k, order[0]) {
      DistinctCons(k, order);
    } else {
      var rest := order[1..];
      assert k !in rest && order[0] !in rest && DistinctColumns(rest);
      InsertColumnDistinct(key, rest, k);
      var tail := InsertColumn(key, rest, k);
      assert order[0] !in tail;
      DistinctCons(order[0], tail);
    }
  }

  /** A new column in front of columns without repeats keeps them without
      repeats. */
  lemma DistinctCons(x: nat, order: seq<nat>)
    requires x !in order && DistinctColumns(order)
    ensures DistinctColumns([x] + order)
  {
    var r := [x] + order;
    forall i, j | 0 <= i < j < |r|
      ensures r[i] != r[j]
    {
      assert r[j] == order[j - 1];
      if i > 0 {
        assert r[i] == order[i - 1];
      }
    }
  }

  /** The column order lists each of the first n columns exactly once: it
      holds every one of them and none twice. */
  lemma {:induction false} ColumnOrderPermutation(key: string, n: nat)
    requires n <= |key|
    ensures forall k :: 0 <= k < n ==> k in ColumnOrder(key, n)
    ensures DistinctColumns(ColumnOrder(key, n))
  {
    if n > 0 {
      var prev := ColumnOrder(key, n - 1);
      ColumnOrderPermutation(key, n - 1);
      assert ColumnOrder(key, n) == InsertColumn(key, prev, n - 1);
      assert n - 1 !in prev;
      InsertColumnDistinct(key, prev, n - 1);
    }
  }

  /** The column order is ascending by key character, equal characters in
      column order: with the lemma above, exactly the result of Python's
      stable sort. */
  lemma {:induction false} ColumnOrderSorted(key: string, n: nat)
    requires n <= |key|
    ensures SortedByKey(key, ColumnOrder(key, n))
  {
    if n > 0 {
      ColumnOrderSorted(key, n - 1);
      var prev := ColumnOrder(key, n - 1);
      assert n - 1 !in prev;
      InsertColumnSorted(key, prev, n - 1);
    }
  }

  // ----- The grid and the cipher text -----

  /** The number of grid rows for n characters: the whole rows, plus one
      when there is a remainder, that is n / cols rounded up. */
  function RowCount(n: nat, cols: nat): (rows: nat)
    requires cols > 0
    ensures n <= rows * cols < n + cols
  {
    var q := n / cols;
    assert n == q * cols + n % cols;
    assert (q + 1) * cols == q * cols + cols;
    q + if n % cols != 0 then 1 else 0
  }

  /** A run of n X characters. */
  function Padding(n: nat): (xs: string)
    ensures |xs| == n && forall i :: 0 <= i < n ==> xs[i] == 'X'
  {
    seq(n, _ => 'X')
  }

  /** The text without its spaces, in upper case, then padded with X up to
      a whole number of rows. */
  function RowColumnPrepare(text: string, cols: nat): (p: string)
    requires cols > 0
    ensures var t := UpperString(RemoveSpaces(text));
      |p| == RowCount(|t|, cols) * cols && p[..|t|] == t &&
      forall i :: |t| <= i < |p| ==> p[i] == 'X'
  {
    var t := UpperString(RemoveSpaces(text));
    t + Padding(RowCount(|t|, cols) * cols - |t|)
  }

  /** The two branches of the source's row computation: no padding when
      the length is a multiple of the key length, otherwise one more row
      and as many X characters as the grid has cells beyond the text. */
  lemma {:induction false} PrepareCases(text: string, cols: nat)
    requires cols > 0
    ensures var t := UpperString(RemoveSpaces(text)); var q := |t| / cols;
      var rows := RowCount(|RemoveSpaces(text)|, cols);
      (|t| % cols == 0 ==> rows == q && RowColumnPrepare(text, cols) == t) &&
      (|t| % cols != 0 ==>
        rows == q + 1 && |t| <= cols * rows &&
        RowColumnPrepare(text, cols) == t + Padding(cols * rows - |t|)) &&
      |RowColumnPrepare(text, cols)| == rows * cols
  {
    var t := UpperString(RemoveSpaces(text));
    var q := |t| / cols;
    assert |t| == q * cols + |t| % cols;
    assert cols * (q + 1) == q * cols + cols;
    assert (q + 1) * cols == q * cols + cols;
  }

  lemma RowEnd(i: nat, rows: nat, cols: nat)
    requires i < rows
    ensures i * cols + cols <= rows * cols
  {
    assert (rows - i) * cols >= cols by {
      if cols > 0 {
        MulAtLeast(rows - i, cols);
      }
    }
  }

  /** The grid: the padded text cut into consecutive rows of `cols`
      characters. */
  function Grid(p: string, cols: nat, rows: nat): (matrix: seq<string>)
    requires |p| == rows * cols
    ensures |matrix| == rows
    ensures Rectangular(matrix, cols)
  {
    seq(rows, i requires 0 <= i < rows => Row(p, cols, rows, i))
  }

  /** Row i of the grid: the i-th run of `cols` characters. */
  function Row(p: string, cols: nat, rows: nat, i: nat): (row: string)
    requires |p| == rows * cols && i < rows
    ensures |row| == cols
  {
    RowEnd(i, rows, cols);
    p[i * cols..i * cols + cols]
  }

  /** Every row of the grid holds `cols` characters. */
  predicate Rectangular(matrix: seq<string>, cols: nat) {
    forall r :: 0 <= r < |matrix| ==> |matrix[r]| == cols
  }

  /** Column c of the grid, top to bottom. */
  function Column(matrix: seq<string>, c: nat): (col: string)
    requires forall r :: 0 <= r < |matrix| ==> c < |matrix[r]|
    ensures |col| == |matrix|
  {
    seq(|matrix|, r requires 0 <= r < |matrix| => matrix[r][c])
  }

  /** The columns of the grid named by `order`, one after the other: one
      character per row for every column read. */
  function ReadColumns(matrix: seq<string>, cols: nat, order: seq<nat>): (r: string)
    requires Rectangular(matrix, cols) && InColumns(order, cols)
    ensures |r| == |order| * |matrix|
  {
    if order == [] then []
    else
      var n := |order| - 1;
      var front := ReadColumns(matrix, cols, order[..n]);
      assert |front| + |matrix| == |order| * |matrix| by {
        assert (n + 1) * |matrix| == n * |matrix| + |matrix|;
      }
      front + Column(matrix, order[n])
  }

  lemma {:induction false} ReadColumnsNext(matrix: seq<string>, cols: nat, order: seq<nat>, j: nat)
    requires Rectangular(matrix, cols) && InColumns(order, cols) && j < |order|
    ensures ReadColumns(matrix, cols, order[..j + 1])
         == ReadColumns(matrix, cols, order[..j]) + Column(matrix, order[j])
  {
    assert order[..j + 1][..j] == order[..j];
  }

  /** The cipher text of the Python row_column_encrypt: a permutation of
      the space-free, upper-cased, X-padded text, in whole rows of |key|
      characters, that is |key| times n / |key| rounded up, n being the
      length of the space-free text. */
  function RowColumnCipher(text: string, key: string): (r: string)
    requires |key| > 0
    ensures multiset(r) == multiset(RowColumnPrepare(text, |key|))
    ensures |r| == RowCount(|RemoveSpaces(text)|, |key|) * |key|
  {
    var cols := |key|;
    var p := RowColumnPrepare(text, cols);
    var rows := RowCount(|RemoveSpaces(text)|, cols);
    ReadGridPermutation(p, key, rows);
    var r := ReadColumns(Grid(p, cols, rows), cols, ColumnOrder(key, cols));
    assert |multiset(r)| == |r|;
    r
  }

  /** The Python row_column_encrypt. An empty key divides by zero in the
      source, so the key must be non-empty. */
  method RowColumnEncrypt(text: string, key: string) returns (cipher: string)
    requires |key| > 0
    ensures cipher == RowColumnCipher(text, key)
  {
    var t := UpperString(RemoveSpaces(text));
    var col := |key|;
    var row := |t| / col;
    if |t| % col != 0 {
      row := row + 1;
      assert |t| <= col * row by {
        PrepareCases(text, col);
      }
      t := t + Padding(col * row - |t|);
    }
    assert t == RowColumnPrepare(text, col) && row == RowCount(|RemoveSpaces(text)|, col) by {
      PrepareCases(text, col);
    }
    var matrix := Grid(t, col, row);
    var order := ColumnOrder(key, col);
    cipher := ReadOut(matrix, col, order);
  }

  /** The nested loops of the Python row_column_encrypt: for each column in
      the order, every row's character in that column. */
  method ReadOut(matrix: seq<string>, col: nat, order: seq<nat>) returns (cipher: string)
    requires Rectangular(matrix, col) && InColumns(order, col)
    ensures cipher == ReadColumns(matrix, col, order)
  {
    cipher := "";
    for j := 0 to |order|
      invariant cipher == ReadColumns(matrix, col, order[..j])
    {
      var idx := order[j];
      ghost var done := cipher;
      ghost var column := Column(matrix, idx);
      for r := 0 to |matrix|
        invariant cipher == done + column[..r]
      {
        assert column[..r + 1] == column[..r] + [matrix[r][idx]];
        cipher := cipher + [matrix[r][idx]];
      }
      assert column[..|matrix|] == column;
      ReadColumnsNext(matrix, col, order, j);
    }
    assert order[..|order|] == order;
  }

  // ----- The cipher text is a permutation of the padded text -----

  /** The characters of one grid row, taken in the given column order. */
  function Pick(row: string, order: seq<nat>): (r: string)
    requires InColumns(order, |row|)
    ensures |r| == |order|
  {
    seq(|order|, j requires 0 <= j < |order| => row[order[j]])
  }

  /** A grid with no rows has only empty columns. */
  lemma {:induction false} ReadColumnsNoRows(cols: nat, order: seq<nat>)
    requires InColumns(order, cols)
    ensures ReadColumns([], cols, order) == []
  {
    if order != [] {
      ReadColumnsNoRows(cols, order[..|order| - 1]);
    }
  }

  /** A new bottom row adds one character to every column read. */
  lemma {:induction false} ReadColumnsAddRow(matrix: seq<string>, cols: nat, order: seq<nat>, row: string)
    requires Rectangular(matrix, cols) && InColumns(order, cols) && |row| == cols
    ensures Rectangular(matrix + [row], cols)
    ensures multiset(ReadColumns(matrix + [row], cols, order))
         == multiset(ReadColumns(matrix, cols, order)) + multiset(Pick(row, order))
  {
    var grown := matrix + [row];
    assert Rectangular(grown, cols);
    if order != [] {
      var n := |order| - 1;
      var o := order[n];
      ReadColumnsAddRow(matrix, cols, order[..n], row);
      var before, after := ReadColumns(matrix, cols, order[..n]), ReadColumns(grown, cols, order[..n]);
      var column := Column(matrix, o);
      assert Column(grown, o) == column + [row[o]];
      assert ReadColumns(grown, cols, order) == after + (column + [row[o]]);
      assert ReadColumns(matrix, cols, order) == before + column;
      assert Pick(row, order) == Pick(row, order[..n]) + [row[o]];
      assert multiset(ReadColumns(grown, cols, order)) == multiset(after) + multiset(column) + multiset{row[o]};
    }
  }

  lemma {:induction false} PickCons(row: string, c: nat, order: seq<nat>)
    requires c < |row| && InColumns(order, |row|)
    ensures InColumns([c] + order, |row|)
    ensures Pick(row, [c] + order) == [row[c]] + Pick(row, order)
  {
    assert InColumns([c] + order, |row|);
  }

  lemma {:induction false} PickInsert(row: string, key: string, order: seq<nat>, k: nat)
    requires |row| == |key| && k < |key| && InColumns(order, |key|)
    ensures multiset(Pick(row, InsertColumn(key, order, k))) == multiset(Pick(row, order)) + multiset{row[k]}
  {
    var ins := InsertColumn(key, order, k);
    if order == [] {
      assert ins == [k];
    } else if Before(key, k, order[0]) {
      assert ins == [k] + order;
      PickCons(row, k, order);
    } else {
      var rest := order[1..];
      var tail := InsertColumn(key, rest, k);
      assert ins == [order[0]] + tail;
      PickInsert(row, key, rest, k);
      PickCons(row, order[0], tail);
      PickCons(row, order[0], rest);
      assert order == [order[0]] + rest;
    }
  }

  lemma PrefixSnoc(s: string, n: nat)
    requires 0 < n <= |s|
    ensures multiset(s[..n]) == multiset(s[..n - 1]) + multiset{s[n - 1]}
  {
    assert s[..n] == s[..n - 1] + [s[n - 1]];
  }

  /** Reading one row in column order gives a permutation of the row. */
  lemma {:induction false} PickColumnOrder(row: string, key: string, n: nat)
    requires n <= |key| == |row|
    ensures multiset(Pick(row, ColumnOrder(key, n))) == multiset(row[..n])
  {
    if n > 0 {
      var prev := ColumnOrder(key, n - 1);
      assert ColumnOrder(key, n) == InsertColumn(key, prev, n - 1);
      InsertColumnMultiset(key, prev, n - 1);
      PickColumnOrder(row, key, n - 1);
      PickInsert(row, key, prev, n - 1);
      PrefixSnoc(row, n);
    }
  }

  /** Appending a row whose picked characters are a rearrangement of it
      extends a rearrangement of the rows above it. */
  lemma {:induction false} AddRowMultiset(matrix: seq<string>, cols: nat, order: seq<nat>, above: string, row: string)
    requires Rectangular(matrix, cols) && InColumns(order, cols) && |row| == cols
    requires multiset(ReadColumns(matrix, cols, order)) == multiset(above)
    requires multiset(Pick(row, order)) == multiset(row)
    ensures Rectangular(matrix + [row], cols)
    ensures multiset(ReadColumns(matrix + [row], cols, order)) == multiset(above + row)
  {
    ReadColumnsAddRow(matrix, cols, order, row);
  }

  /** A string is its prefix followed by the rest. */
  lemma SplitJoin(s: string, k: nat)
    requires k <= |s|
    ensures s[..k] + s[k..] == s
  {
  }

  /** Dropping the last row of the grid is the grid of the text without its
      last `cols` characters. */
  lemma {:induction false} GridLastRow(p: string, cols: nat, rows: nat)
    requires |p| == rows * cols && rows > 0
    ensures (rows - 1) * cols <= |p|
    ensures Grid(p, cols, rows)
         == Grid(p[..(rows - 1) * cols], cols, rows - 1) + [p[(rows - 1) * cols..]]
  {
    var cut := (rows - 1) * cols;
    LastRowBounds(cols, rows);
    var front := p[..cut];
    var whole := Grid(p, cols, rows);
    var shorter := Grid(front, cols, rows - 1);
    forall i | 0 <= i < rows - 1
      ensures whole[i] == shorter[i]
    {
      RowOfFront(p, cols, rows, i);
    }
    assert whole[rows - 1] == p[cut..];
    assert whole == shorter + [p[cut..]];
  }

  lemma LastRowBounds(cols: nat, rows: nat)
    requires rows > 0
    ensures (rows - 1) * cols + cols == rows * cols
  {
  }

  /** A row above the last one is the same row of the grid of the text
      without its last `cols` characters. */
  lemma {:induction false} RowOfFront(p: string, cols: nat, rows: nat, i: nat)
    requires |p| == rows * cols && i + 1 < rows
    ensures (rows - 1) * cols <= |p|
    ensures Row(p, cols, rows, i) == Row(p[..(rows - 1) * cols], cols, rows - 1, i)
  {
    LastRowBounds(cols, rows);
    RowEnd(i, rows - 1, cols);
  }

  /** The rows of the grid, read in any column order that is the source's
      sorted order, give back the grid's characters. */
  lemma {:induction false} ReadGridPermutation(p: string, key: string, rows: nat)
    requires |key| > 0 && |p| == rows * |key|
    ensures multiset(ReadColumns(Grid(p, |key|, rows), |key|, ColumnOrder(key, |key|))) == multiset(p)
  {
    var cols := |key|;
    var order := ColumnOrder(key, cols);
    if rows == 0 {
      ReadColumnsNoRows(cols, order);
    } else {
      var cut := (rows - 1) * cols;
      GridLastRow(p, cols, rows);
      var front, last := p[..cut], p[cut..];
      assert |front| == (rows - 1) * cols;
      ReadGridPermutation(front, key, rows - 1);
      PickColumnOrder(last, key, cols);
      assert last[..cols] == last;
      AddRowMultiset(Grid(front, cols, rows - 1), cols, order, front, last);
      SplitJoin(p, cut);
    }
  }

  lemma HelloWorldPrepared(text: string)
    requires text == "HELLOWORLD"
    ensures RowCount(|RemoveSpaces(text)|, 5) == 2 && RowColumnPrepare(text, 5) == text
  {
    RemoveSpacesNone(text);
    assert UpperString(text) == text;
    assert RowCount(10, 5) == 2;
  }

  /** ZEBRA sorts its columns as A, B, E, R, Z: columns 4, 2, 1, 3, 0. */
  lemma ZebraOrder()
    ensures ColumnOrder("ZEBRA", 5) == [4, 2, 1, 3, 0]
  {
    var key := "ZEBRA";
    assert ColumnOrder(key, 1) == [0];
    assert ColumnOrder(key, 2) == [1, 0];
    assert ColumnOrder(key, 3) == [2, 1, 0];
    assert ColumnOrder(key, 4) == [2, 1, 3, 0];
  }

  lemma HelloWorldGrid(text: string)
    requires text == "HELLOWORLD"
    ensures Grid(text, 5, 2) == ["HELLO", "WORLD"]
  {
    assert Row(text, 5, 2, 0) == text[0..5] == "HELLO";
    assert Row(text, 5, 2, 1) == text[5..10] == "WORLD";
  }

  lemma RowColumnExample()
    ensures RowColumnCipher("HELLOWORLD", "ZEBRA") == "ODLREOLLHW"
  {
    var text, key := "HELLOWORLD", "ZEBRA";
    HelloWorldPrepared(text);
    ZebraOrder();
    HelloWorldGrid(text);
    ExampleColumns(["HELLO", "WORLD"], [4, 2, 1, 3, 0]);
  }

  lemma ExampleColumns(grid: seq<string>, order: seq<nat>)
    requires grid == ["HELLO", "WORLD"] && order == [4, 2, 1, 3, 0]
    ensures Rectangular(grid, 5) && InColumns(order, 5)
    ensures ReadColumns(grid, 5, order) == "ODLREOLLHW"
  {
    assert grid[0][4] == 'O' && grid[1][4] == 'D' && grid[0][2] == 'L' && grid[1][2] == 'R';
    assert grid[0][1] == 'E' && grid[1][1] == 'O' && grid[0][3] == 'L' && grid[1][3] == 'L';
    assert grid[0][0] == 'H' && grid[1][0] == 'W';
    assert Column(grid, 4) == "OD" && Column(grid, 2) == "LR" && Column(grid, 1) == "EO";
    assert Column(grid, 3) == "LL" && Column(grid, 0) == "HW";
    assert order[..1] == [4] && order[..2] == [4, 2] && order[..3] == [4, 2, 1];
    assert order[..4] == [4, 2, 1, 3];
    assert order[..4][..3] == order[..3] && order[..3][..2] == order[..2];
    assert order[..2][..1] == order[..1] && order[..1][..0] == [];
    assert ReadColumns(grid, 5, order[..1]) == "OD";
    assert ReadColumns(grid, 5, order[..2]) == "ODLR";
    assert ReadColumns(grid, 5, order[..3]) == "ODLREO";
    assert ReadColumns(grid, 5, order[..4]) == "ODLREOLL";
  }
}
