/**
 * Result table assembly in "all" mode (readColumnNames, mapToRecordsetAttribute): the column
 * headers, the sort column, the insertion sort of the rows into a fresh table, and the
 * Recordset built from it with null cells dropped.
 */
module Table {
  import opened Wrappers
  import opened Text
  import opened Script
  import opened Composite
  import opened Rows

  /** The header of the entry-name column. */
  const NameColumn: string := "JNDIName"

  /** readColumnNames: "JNDIName" when the name is included, then the result keys in order. */
  function ColumnNames(includeName: bool, keys: seq<string>): (columns: seq<string>)
    ensures |columns| == |keys| + (if includeName then 1 else 0)
    ensures includeName ==> columns[0] == NameColumn && columns[1..] == keys
    ensures !includeName ==> columns == keys
  {
    (if includeName then [NameColumn] else []) + keys
  }

  // ---------------------------------------------------------------------
  // The sort column

  /**
   * The sort name after getVariable: the resolved value's toString if it is not null, else the
   * name itself. A null name (the bean before any configuration) makes getVariable throw.
   */
  function ResolveSortName(vars: Variables, sortBy: Option<string>): Result<string> {
    match sortBy
    case None => Err(NullPointer)
    case Some(name) =>
      match vars(name)
      case None => Ok(name)
      case Some(v) => Ok(Show(v))
  }

  /** The index of the first header equal to the sort name, 0 when there is none. */
  function SortColumnOf(columns: seq<string>, name: string): (col: nat)
    ensures col == 0 || col < |columns|
    ensures name in columns ==> col < |columns| && columns[col] == name
    ensures forall c :: 0 <= c < col && c < |columns| ==> columns[c] != name
    ensures name !in columns ==> col == 0
    decreases |columns|
  {
    if columns == [] || name !in columns then 0
    else if columns[0] == name then 0
    else 1 + SortColumnOf(columns[1..], name)
  }

  /** The loop over the headers that picks the sort column (:568-580). */
  method SortColumn(columns: seq<string>, name: string) returns (col: nat)
    ensures col == SortColumnOf(columns, name)
  {
    col := 0;
    var c := 0;
    while c < |columns|
      invariant 0 <= c <= |columns|
      invariant forall k :: 0 <= k < c ==> columns[k] != name
    {
      if columns[c] == name {
        col := c;
        break;
      }
      c := c + 1;
    }
    assert col == 0 || (col < |columns| && columns[col] == name && forall k :: 0 <= k < col ==> columns[k] != name);
    SortColumnUnique(columns, name, col);
  }

  /** The properties of SortColumnOf determine it. */
  lemma SortColumnUnique(columns: seq<string>, name: string, col: nat)
    requires name in columns ==> col < |columns| && columns[col] == name
    requires forall k :: 0 <= k < col && k < |columns| ==> columns[k] != name
    requires name !in columns ==> col == 0
    ensures col == SortColumnOf(columns, name)
  {
  }

  // ---------------------------------------------------------------------
  // Comparing sort cells

  /** ", "-separated, as AbstractCollection.toString writes the elements. */
  function Joined(vs: seq<string>): string
    decreases |vs|
  {
    if vs == [] then "" else if |vs| == 1 then vs[0] else vs[0] + ", " + Joined(vs[1..])
  }

  /** toString of a non-null cell. */
  function Display(c: Cell): string {
    match c
    case NullCell => ""
    case Text(s) => s
    case TextList(vs) => "[" + Joined(vs) + "]"
  }

  /** The scan passes a row whose key sorts strictly before the new key (after it, when descending). */
  predicate Precedes(existing: string, key: string, descending: bool) {
    if descending then CompareIgnoreCase(existing, key) > 0 else CompareIgnoreCase(existing, key) < 0
  }

  /** Two keys in the order the table is sorted in. */
  predicate Ordered(a: string, b: string, descending: bool) {
    if descending then CompareIgnoreCase(a, b) >= 0 else CompareIgnoreCase(a, b) <= 0
  }

  lemma OrderedTransitive(a: string, b: string, c: string, descending: bool)
    requires Ordered(a, b, descending) && Ordered(b, c, descending)
    ensures Ordered(a, c, descending)
  {
    if descending {
      CompareAntisymmetric(a, b);
      CompareAntisymmetric(b, c);
      CompareAntisymmetric(a, c);
      CompareTransitive(c, b, a);
    } else {
      CompareTransitive(a, b, c);
    }
  }

  // ---------------------------------------------------------------------
  // The insertion sort

  /**
   * The scan for the insertion point of `row` among the rows already placed, from index `i`:
   * it stops at the first row the new key does not pass, or at once when the new key is null.
   * Reading the key past the row's end, or the sort column past the table's width, throws;
   * so does the toString of a null cell already placed.
   */
  function ScanFrom(data: seq<seq<Cell>>, row: seq<Cell>, col: nat, descending: bool, i: nat): (r: Result<nat>)
    requires i <= |data|
    ensures r.Ok? ==> i <= r.value <= |data|
    decreases |data| - i
  {
    if i == |data| then Ok(i)
    else if col >= |row| then Err(IndexOutOfBounds)
    else if row[col].NullCell? then Ok(i)
    else if col >= |data[i]| then Err(IndexOutOfBounds)
    else if data[i][col].NullCell? then Err(NullPointer)
    else if Precedes(Display(data[i][col]), Display(row[col]), descending) then ScanFrom(data, row, col, descending, i + 1)
    else Ok(i)
  }

  /** The copy of the row's first `width` cells to the insertion point; a shorter row throws. */
  function Insert(data: seq<seq<Cell>>, at: nat, row: seq<Cell>, width: nat): Result<seq<seq<Cell>>>
    requires at <= |data|
  {
    if |row| < width then Err(IndexOutOfBounds)
    else Ok(data[..at] + [row[..width]] + data[at..])
  }

  /** The table after inserting the rows one by one, in arrival order. */
  function SortRows(rows: seq<seq<Cell>>, col: nat, descending: bool, width: nat): (r: Result<seq<seq<Cell>>>)
    ensures r.Ok? ==> |r.value| == |rows|
    decreases |rows|
  {
    if rows == [] then Ok([])
    else
      var data :- SortRows(rows[..|rows| - 1], col, descending, width);
      var at :- ScanFrom(data, rows[|rows| - 1], col, descending, 0);
      Insert(data, at, rows[|rows| - 1], width)
  }

  /** Once a row throws, so does the whole sort, with the same exception. */
  lemma {:induction false} SortRowsFirstError(rows: seq<seq<Cell>>, col: nat, descending: bool, width: nat, i: nat)
    requires i <= |rows| && SortRows(rows[..i], col, descending, width).Err?
    ensures SortRows(rows, col, descending, width) == SortRows(rows[..i], col, descending, width)
    decreases |rows|
  {
    if i < |rows| {
      var init := rows[..|rows| - 1];
      assert init[..i] == rows[..i];
      SortRowsFirstError(init, col, descending, width, i);
    } else {
      assert rows[..i] == rows;
    }
  }

  /** The scan loop of one row (:591-612) over the first `n` rows of the table. */
  method FindInsertionPoint(data: array<seq<Cell>>, n: nat, aRow: seq<Cell>, col: nat, descending: bool)
    returns (r: Result<nat>)
    requires n <= data.Length
    ensures r == ScanFrom(data[..n], aRow, col, descending, 0)
  {
    ghost var placed := data[..n];
    var insertAt := 0;
    while insertAt < n
      invariant 0 <= insertAt <= n
      invariant ScanFrom(placed, aRow, col, descending, 0) == ScanFrom(placed, aRow, col, descending, insertAt)
    {
      assert placed[insertAt] == data[insertAt];
      if col >= |aRow| {
        return Err(IndexOutOfBounds);
      }
      if aRow[col].NullCell? {
        break;
      }
      if col >= |data[insertAt]| {
        return Err(IndexOutOfBounds);
      }
      if data[insertAt][col].NullCell? {
        return Err(NullPointer);
      }
      if !Precedes(Display(data[insertAt][col]), Display(aRow[col]), descending) {
        break;
      }
      insertAt := insertAt + 1;
    }
    return Ok(insertAt);
  }

  /** The shift loops and the copy (:613-621): rows at..n-1 move down one, then the new row goes to `at`. */
  method InsertAt(data: array<seq<Cell>>, n: nat, at: nat, row: seq<Cell>)
    requires at <= n < data.Length
    modifies data
    ensures data[..n + 1] == old(data[..n])[..at] + [row] + old(data[..n])[at..]
    ensures data[n + 1..] == old(data[n + 1..])
  {
    ghost var placed := data[..n];
    var shift := 0;
    while at < n - shift
      invariant 0 <= shift <= n - at
      invariant forall k :: 0 <= k < n - shift ==> data[k] == placed[k]
      invariant forall k :: n - shift < k <= n ==> data[k] == placed[k - 1]
      invariant data[n + 1..] == old(data[n + 1..])
    {
      data[n - shift] := data[n - shift - 1];
      shift := shift + 1;
    }
    data[at] := row;
    assert data[..n + 1] == placed[..at] + [row] + placed[at..];
  }

  /**
   * mapToRecordsetAttribute's loop over the rows (:582-622): each row is placed at the position
   * its scan finds, the rows below it moved down by one. The table is an array of rows, so the
   * source's column-by-column shift moves whole rows here.
   */
  method SortIntoTable(rows: seq<seq<Cell>>, col: nat, descending: bool, width: nat) returns (r: Result<seq<seq<Cell>>>)
    ensures r == SortRows(rows, col, descending, width)
  {
    var data := new seq<Cell>[|rows|](_ => seq(width, _ => NullCell));
    var n := 0;
    while n < |rows|
      invariant 0 <= n <= |rows|
      invariant SortRows(rows[..n], col, descending, width) == Ok(data[..n])
    {
      var aRow := rows[n];
      assert rows[..n + 1][..n] == rows[..n];
      assert rows[..n + 1][n] == aRow;
      var found := FindInsertionPoint(data, n, aRow, col, descending);
      if found.Err? {
        r := Err(found.error);
        SortRowsFirstError(rows, col, descending, width, n + 1);
        return;
      }
      if |aRow| < width {
        r := Err(IndexOutOfBounds);
        SortRowsFirstError(rows, col, descending, width, n + 1);
        return;
      }
      InsertAt(data, n, found.value, aRow[..width]);
      n := n + 1;
    }
    assert rows[..n] == rows;
    assert data[..] == data[..n];
    r := Ok(data[..]);
  }

  // ---------------------------------------------------------------------
  // What the sort promises

  /** Where the scan stops: past every row the new key passes, at the first one it does not. */
  lemma {:induction false} ScanStops(data: seq<seq<Cell>>, row: seq<Cell>, col: nat, descending: bool, i: nat)
    requires i <= |data| && col < |row| && !row[col].NullCell?
    requires ScanFrom(data, row, col, descending, i).Ok?
    ensures var at := ScanFrom(data, row, col, descending, i).value;
            i <= at <= |data|
            && (forall j :: i <= j < at ==> col < |data[j]| && Precedes(Display(data[j][col]), Display(row[col]), descending))
            && (at < |data| ==> col < |data[at]| && !Precedes(Display(data[at][col]), Display(row[col]), descending))
    decreases |data| - i
  {
    if i < |data| && Precedes(Display(data[i][col]), Display(row[col]), descending) {
      ScanStops(data, row, col, descending, i + 1);
    }
  }

  /** A row whose sort cell is null is placed first. */
  lemma NullKeyFirst(data: seq<seq<Cell>>, row: seq<Cell>, col: nat, descending: bool)
    requires col < |row| && row[col].NullCell?
    ensures ScanFrom(data, row, col, descending, 0) == Ok(0)
  {
  }

  /** Inserting a row with a null sort cell puts it at the top of the table. */
  lemma NullKeyRowInsertedFirst(rows: seq<seq<Cell>>, row: seq<Cell>, col: nat, descending: bool, width: nat)
    requires SortRows(rows, col, descending, width).Ok?
    requires col < |row| && row[col].NullCell? && width <= |row|
    ensures SortRows(rows + [row], col, descending, width)
         == Ok([row[..width]] + SortRows(rows, col, descending, width).value)
  {
    var all := rows + [row];
    assert all[..|all| - 1] == rows;
    assert all[|all| - 1] == row;
    var data := SortRows(rows, col, descending, width).value;
    assert data[..0] + [row[..width]] + data[0..] == [row[..width]] + data;
  }

  /** A new key that ties with placed rows goes above all of them: equal keys end up in reverse arrival order. */
  lemma TieGoesFirst(data: seq<seq<Cell>>, row: seq<Cell>, col: nat, descending: bool, j: nat)
    requires col < |row| && !row[col].NullCell?
    requires ScanFrom(data, row, col, descending, 0).Ok?
    requires j < |data| && col < |data[j]| && CompareIgnoreCase(Display(data[j][col]), Display(row[col])) == 0
    ensures ScanFrom(data, row, col, descending, 0).value <= j
  {
    ScanStops(data, row, col, descending, 0);
  }

  /** Two rows whose keys differ only in case come out in reverse order. */
  lemma TieReversesArrival()
    ensures SortRows([[Text("x")], [Text("X")]], 0, false, 1) == Ok([[Text("X")], [Text("x")]])
  {
    var rows := [[Text("x")], [Text("X")]];
    var first := [[Text("x")]];
    assert rows[..1] == first;
    assert first[..0] == [];
    assert SortRows([], 0, false, 1) == Ok([]);
    assert ScanFrom([], [Text("x")], 0, false, 0) == Ok(0);
    assert [Text("x")][..1] == [Text("x")];
    assert first[..|first| - 1] == [];
    var none: seq<seq<Cell>> := [];
    assert none[..0] + [[Text("x")][..1]] + none[0..] == first;
    assert Insert(none, 0, [Text("x")], 1) == Ok(first);
    assert SortRows(first, 0, false, 1) == Ok(first);
    assert CompareIgnoreCase("x", "X") == 0;
    assert ScanFrom(first, [Text("X")], 0, false, 0) == Ok(0);
    assert [Text("X")][..1] == [Text("X")];
    assert first[..0] + [[Text("X")]] + first[0..] == [[Text("X")], [Text("x")]];
  }

  /** The rows of the sorted table, truncated to the table's width. */
  function Truncated(rows: seq<seq<Cell>>, width: nat): (t: seq<seq<Cell>>)
    requires forall i :: 0 <= i < |rows| ==> width <= |rows[i]|
    ensures |t| == |rows|
  {
    seq(|rows|, i requires 0 <= i < |rows| => rows[i][..width])
  }

  /** The sorted table holds the input rows (cut to the table width), each exactly once: a permutation. */
  lemma {:induction false} SortRowsPermutes(rows: seq<seq<Cell>>, col: nat, descending: bool, width: nat)
    requires SortRows(rows, col, descending, width).Ok?
    ensures forall i :: 0 <= i < |rows| ==> width <= |rows[i]|
    ensures multiset(SortRows(rows, col, descending, width).value) == multiset(Truncated(rows, width))
    decreases |rows|
  {
    if rows != [] {
      var init := rows[..|rows| - 1];
      var last := rows[|rows| - 1];
      SortRowsStep(rows, col, descending, width);
      SortRowsPermutes(init, col, descending, width);
      var data := SortRows(init, col, descending, width).value;
      var at := ScanFrom(data, last, col, descending, 0).value;
      InsertAdds(data, at, last, width);
      forall i | 0 <= i < |rows| - 1
        ensures width <= |rows[i]|
      {
        assert init[i] == rows[i];
      }
      TruncatedSnoc(rows, width);
      assert multiset(Truncated(rows, width)) == multiset(Truncated(init, width)) + multiset{last[..width]};
    }
  }

  /** A successful sort of the rows is a successful sort of all but the last, then one insertion. */
  lemma SortRowsStep(rows: seq<seq<Cell>>, col: nat, descending: bool, width: nat)
    requires rows != [] && SortRows(rows, col, descending, width).Ok?
    ensures var init := rows[..|rows| - 1];
            var last := rows[|rows| - 1];
            SortRows(init, col, descending, width).Ok?
            && ScanFrom(SortRows(init, col, descending, width).value, last, col, descending, 0).Ok?
            && width <= |last|
            && SortRows(rows, col, descending, width)
               == Insert(SortRows(init, col, descending, width).value,
                         ScanFrom(SortRows(init, col, descending, width).value, last, col, descending, 0).value, last, width)
  {
  }

  lemma InsertAdds(data: seq<seq<Cell>>, at: nat, row: seq<Cell>, width: nat)
    requires at <= |data| && width <= |row|
    ensures multiset(Insert(data, at, row, width).value) == multiset(data) + multiset{row[..width]}
  {
    assert data == data[..at] + data[at..];
  }

  lemma TruncatedSnoc(rows: seq<seq<Cell>>, width: nat)
    requires rows != []
    requires forall i :: 0 <= i < |rows| - 1 ==> width <= |rows[i]|
    requires width <= |rows[|rows| - 1]|
    ensures forall i :: 0 <= i < |rows| ==> width <= |rows[i]|
    ensures Truncated(rows, width) == Truncated(rows[..|rows| - 1], width) + [rows[|rows| - 1][..width]]
  {
    var init := rows[..|rows| - 1];
    assert forall i :: 0 <= i < |init| ==> init[i] == rows[i];
  }

  /** Every sort cell is present and non-null: the rows are comparable. */
  predicate Keyed(rows: seq<seq<Cell>>, col: nat) {
    forall i :: 0 <= i < |rows| ==> col < |rows[i]| && !rows[i][col].NullCell?
  }

  /** The table is sorted on the column: ascending, or descending, under compareToIgnoreCase. */
  predicate InOrder(data: seq<seq<Cell>>, col: nat, descending: bool)
    requires Keyed(data, col)
  {
    forall i, j :: 0 <= i < j < |data| ==> Ordered(KeyAt(data, col, i), KeyAt(data, col, j), descending)
  }

  lemma InsertKeepsOrder(data: seq<seq<Cell>>, row: seq<Cell>, col: nat, descending: bool, width: nat, at: nat)
    requires Keyed(data, col) && InOrder(data, col, descending)
    requires col < width <= |row| && !row[col].NullCell?
    requires at <= |data|
    requires forall j :: 0 <= j < at ==> Precedes(Display(data[j][col]), Display(row[col]), descending)
    requires at < |data| ==> !Precedes(Display(data[at][col]), Display(row[col]), descending)
    ensures Keyed(Insert(data, at, row, width).value, col)
    ensures InOrder(Insert(data, at, row, width).value, col, descending)
  {
    var r := Insert(data, at, row, width).value;
    var key := Display(row[col]);
    KeyAfterInsert(data, row, col, width, at);
    forall i, j | 0 <= i < j < |r|
      ensures Ordered(KeyAt(r, col, i), KeyAt(r, col, j), descending)
    {
      if j < at {
        assert Ordered(KeyAt(data, col, i), KeyAt(data, col, j), descending);
      } else if i > at {
        assert Ordered(KeyAt(data, col, i - 1), KeyAt(data, col, j - 1), descending);
      } else if j == at {
        CompareAntisymmetric(KeyAt(data, col, i), key);
      } else if i == at {
        var pivot := KeyAt(data, col, at);
        CompareAntisymmetric(pivot, key);
        assert Ordered(key, pivot, descending);
        if j - 1 > at {
          assert Ordered(pivot, KeyAt(data, col, j - 1), descending);
          OrderedTransitive(key, pivot, KeyAt(data, col, j - 1), descending);
        }
      } else {
        assert Ordered(KeyAt(data, col, i), KeyAt(data, col, j - 1), descending);
      }
    }
  }

  function KeyAt(data: seq<seq<Cell>>, col: nat, i: nat): string
    requires Keyed(data, col) && i < |data|
  {
    Display(data[i][col])
  }

  /** The inserted table, cell by cell: the rows above the point, the new row, the rows below it. */
  lemma KeyAfterInsert(data: seq<seq<Cell>>, row: seq<Cell>, col: nat, width: nat, at: nat)
    requires Keyed(data, col)
    requires col < width <= |row| && !row[col].NullCell?
    requires at <= |data|
    ensures Keyed(Insert(data, at, row, width).value, col)
    ensures var r := Insert(data, at, row, width).value;
            |r| == |data| + 1
            && (forall k :: 0 <= k < at ==> KeyAt(r, col, k) == KeyAt(data, col, k))
            && KeyAt(r, col, at) == Display(row[col])
            && (forall k :: at < k < |r| ==> KeyAt(r, col, k) == KeyAt(data, col, k - 1))
  {
    var r := Insert(data, at, row, width).value;
    assert forall k :: 0 <= k < at ==> r[k] == data[k];
    assert r[at] == row[..width];
    assert forall k :: at < k < |r| ==> r[k] == data[k - 1];
  }

  /** With every sort cell inside the table and non-null, the sort succeeds and orders the table. */
  lemma {:induction false} SortRowsOrders(rows: seq<seq<Cell>>, col: nat, descending: bool, width: nat)
    requires col < width
    requires forall i :: 0 <= i < |rows| ==> width <= |rows[i]| && !rows[i][col].NullCell?
    ensures SortRows(rows, col, descending, width).Ok?
    ensures Keyed(SortRows(rows, col, descending, width).value, col)
    ensures InOrder(SortRows(rows, col, descending, width).value, col, descending)
    decreases |rows|
  {
    if rows != [] {
      var init := rows[..|rows| - 1];
      var last := rows[|rows| - 1];
      SortRowsOrders(init, col, descending, width);
      var data := SortRows(init, col, descending, width).value;
      ScanSucceeds(data, last, col, descending, 0);
      ScanStops(data, last, col, descending, 0);
      var at := ScanFrom(data, last, col, descending, 0).value;
      InsertKeepsOrder(data, last, col, descending, width, at);
    }
  }

  lemma {:induction false} ScanSucceeds(data: seq<seq<Cell>>, row: seq<Cell>, col: nat, descending: bool, i: nat)
    requires i <= |data| && Keyed(data, col) && col < |row| && !row[col].NullCell?
    ensures ScanFrom(data, row, col, descending, i).Ok?
    decreases |data| - i
  {
    if i < |data| && Precedes(Display(data[i][col]), Display(row[col]), descending) {
      ScanSucceeds(data, row, col, descending, i + 1);
    }
  }

  /** A row shorter than the table makes the sort, and with it the Recordset, throw. */
  lemma ShortRowFails(rows: seq<seq<Cell>>, col: nat, descending: bool, width: nat, i: nat)
    requires i < |rows| && |rows[i]| < width
    ensures SortRows(rows, col, descending, width).Err?
  {
    if SortRows(rows, col, descending, width).Ok? {
      SortRowsPermutes(rows, col, descending, width);
    }
  }

  // ---------------------------------------------------------------------
  // The Recordset

  /** An output row: the non-null cells in order (the loop over data[j] skips nulls). */
  function DropNulls(row: seq<Cell>): (r: seq<Data>)
    ensures |r| <= |row|
    ensures forall k :: 0 <= k < |r| ==> r[k] != Null
    decreases |row|
  {
    if row == [] then []
    else (if row[0].NullCell? then [] else [CellData(row[0])]) + DropNulls(row[1..])
  }

  /** A row without null cells is carried over cell for cell. */
  lemma {:induction false} DropNullsKeeps(row: seq<Cell>)
    requires forall k :: 0 <= k < |row| ==> !row[k].NullCell?
    ensures DropNulls(row) == seq(|row|, k requires 0 <= k < |row| => CellData(row[k]))
    decreases |row|
  {
    if row != [] {
      DropNullsKeeps(row[1..]);
    }
  }

  /** The copy is cell by cell: a row cut in two is copied as its two halves. */
  lemma {:induction false} DropNullsAppend(a: seq<Cell>, b: seq<Cell>)
    ensures DropNulls(a + b) == DropNulls(a) + DropNulls(b)
    decreases |a|
  {
    if a == [] {
      assert a + b == b;
    } else {
      assert (a + b)[0] == a[0];
      assert (a + b)[1..] == a[1..] + b;
      DropNullsAppend(a[1..], b);
    }
  }

  /**
   * A null name cell (an entry whose name is null, under include-name) is skipped, so every
   * attribute cell of the row moves one column to the left of its header.
   */
  lemma NullNameShiftsLeft(row: seq<Cell>)
    requires |row| >= 1 && row[0].NullCell?
    requires forall k :: 1 <= k < |row| ==> !row[k].NullCell?
    ensures |DropNulls(row)| == |row| - 1
    ensures forall k :: 1 <= k < |row| ==> DropNulls(row)[k - 1] == CellData(row[k])
  {
    assert row == [row[0]] + row[1..];
    DropNullsAppend([row[0]], row[1..]);
    DropNullsKeeps(row[1..]);
  }

  function Recordset(columns: seq<string>, data: seq<seq<Cell>>): Data {
    Records(columns, seq(|data|, j requires 0 <= j < |data| => DropNulls(data[j])))
  }

  /** The loops that copy the table into the Recordset (:626-639), skipping null cells. */
  method BuildRecordset(columns: seq<string>, data: seq<seq<Cell>>) returns (t: Data)
    ensures t == Recordset(columns, data)
  {
    var out: seq<seq<Data>> := [];
    var j := 0;
    while j < |data|
      invariant 0 <= j <= |data|
      invariant |out| == j && forall k :: 0 <= k < j ==> out[k] == DropNulls(data[k])
    {
      var valueList: seq<Data> := [];
      var c := 0;
      while c < |data[j]|
        invariant 0 <= c <= |data[j]|
        invariant valueList + DropNulls(data[j][c..]) == DropNulls(data[j])
      {
        assert data[j][c..][1..] == data[j][c + 1..];
        if !data[j][c].NullCell? {
          valueList := valueList + [CellData(data[j][c])];
        }
        c := c + 1;
      }
      assert data[j][c..] == [];
      assert valueList + [] == valueList;
      out := out + [valueList];
      j := j + 1;
    }
    assert out == seq(|data|, j requires 0 <= j < |data| => DropNulls(data[j]));
    t := Records(columns, out);
  }

  /**
   * mapToRecordsetAttribute after the sort name is resolved: null for no rows, else the sorted
   * table with the headers as column names.
   */
  function RecordsetOf(includeName: bool, keys: seq<string>, sortName: string, descending: bool,
                       rows: seq<seq<Cell>>): Result<Data>
  {
    if rows == [] then Ok(Null)
    else
      var columns := ColumnNames(includeName, keys);
      var sorted :- SortRows(rows, SortColumnOf(columns, sortName), descending, |columns|);
      Ok(Recordset(columns, sorted))
  }

  /** The Recordset has a row per input row, the headers as columns, and is null only for no rows. */
  lemma RecordsetShape(includeName: bool, keys: seq<string>, sortName: string, descending: bool, rows: seq<seq<Cell>>)
    requires RecordsetOf(includeName, keys, sortName, descending, rows).Ok?
    ensures var t := RecordsetOf(includeName, keys, sortName, descending, rows).value;
            (t == Null <==> rows == [])
            && (rows != [] ==> t.Records? && t.columns == ColumnNames(includeName, keys) && |t.rows| == |rows|)
  {
  }
}
