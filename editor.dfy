/**
 * The table half of the editor's getConfiguration: the rows of the filter table, the result
 * table and the result attribute table written back as indexed properties, and the round trip
 * through setConfiguration's loops that read them.
 */
module Editor {
  import opened Wrappers
  import opened Text
  import opened Config

  /** A row of an editor table: the cells of its first two columns, null when never edited. */
  datatype EditorRow = EditorRow(attribute: Option<string>, value: Option<string>)

  /**
   * The cells a row is saved with, or None where the loop breaks: a two-column row with one
   * null cell saves it as "", a row with both null (a one-column row with a null attribute) ends
   * the table.
   */
  function Filled(row: EditorRow, loop: TableLoop): (r: Option<(string, string)>)
    ensures r.None? <==> row.attribute.None? && (loop.valuePrefix.None? || row.value.None?)
  {
    match loop.valuePrefix
    case None => if row.attribute.Some? then Some((row.attribute.value, "")) else None
    case Some(_) =>
      if row.attribute.None? && row.value.None? then None
      else Some((GetCell(row.attribute), GetCell(row.value)))
  }

  function GetCell(cell: Option<string>): string {
    match cell
    case None => ""
    case Some(s) => s
  }

  /** The number of rows saved from row `i` on: the loop ends at the first row it breaks at. */
  function SavedFrom(rows: seq<EditorRow>, loop: TableLoop, i: nat): (n: nat)
    requires i <= |rows|
    ensures i <= n <= |rows|
    ensures forall k :: i <= k < n ==> Filled(rows[k], loop).Some?
    ensures n < |rows| ==> Filled(rows[n], loop).None?
    decreases |rows| - i
  {
    if i < |rows| && Filled(rows[i], loop).Some? then SavedFrom(rows, loop, i + 1) else i
  }

  /** The number of rows saved. */
  function Saved(rows: seq<EditorRow>, loop: TableLoop): (n: nat)
    ensures n <= |rows|
    ensures forall k :: 0 <= k < n ==> Filled(rows[k], loop).Some?
    ensures n < |rows| ==> Filled(rows[n], loop).None?
  {
    SavedFrom(rows, loop, 0)
  }

  /** The properties of row `i` with the cells trimmed; a one-column table has no value key. */
  function PutRow(props: Props, loop: TableLoop, i: nat, cells: (string, string)): Props {
    var withAttribute := props[IndexedKey(loop.attributePrefix, i) := Trim(cells.0)];
    match loop.valuePrefix
    case None => withAttribute
    case Some(vp) => withAttribute[IndexedKey(vp, i) := Trim(cells.1)]
  }

  /** The properties after rows 0..n-1 are saved. */
  function Encoded(props: Props, rows: seq<EditorRow>, loop: TableLoop, n: nat): Props
    requires n <= Saved(rows, loop)
  {
    if n == 0 then props
    else PutRow(Encoded(props, rows, loop, n - 1), loop, n - 1, Filled(rows[n - 1], loop).value)
  }

  /**
   * One pass of the two-column loop: a row with both cells null is where the saved rows end;
   * any other row is saved, its null cell as "".
   */
  lemma PairStep(props: Props, rows: seq<EditorRow>, loop: TableLoop, pos: nat)
    requires loop.valuePrefix.Some? && pos < |rows| && pos <= Saved(rows, loop)
    ensures rows[pos].attribute.None? && rows[pos].value.None? ==> pos == Saved(rows, loop)
    ensures rows[pos].attribute.Some? || rows[pos].value.Some? ==>
              pos < Saved(rows, loop)
              && Encoded(props, rows, loop, pos + 1)
                 == Encoded(props, rows, loop, pos)[IndexedKey(loop.attributePrefix, pos) := Trim(GetCell(rows[pos].attribute))]
                                                   [IndexedKey(loop.valuePrefix.value, pos) := Trim(GetCell(rows[pos].value))]
  {
  }

  /** The loops of the filter table and the result table (:1483-1534): two columns per row. */
  method EncodePairs(props: Props, rows: seq<EditorRow>, loop: TableLoop) returns (out: Props)
    requires loop.valuePrefix.Some?
    ensures out == Encoded(props, rows, loop, Saved(rows, loop))
  {
    out := props;
    var pos := 0;
    while pos < |rows|
      invariant pos <= Saved(rows, loop)
      invariant out == Encoded(props, rows, loop, pos)
    {
      var attribute := rows[pos].attribute;
      var value := rows[pos].value;
      PairStep(props, rows, loop, pos);
      if attribute.Some? && value.None? {
        value := Some("");
      } else if attribute.None? && value.Some? {
        attribute := Some("");
      }
      if attribute.Some? && value.Some? {
        assert attribute.value == GetCell(rows[pos].attribute) && value.value == GetCell(rows[pos].value);
        out := out[IndexedKey(loop.attributePrefix, pos) := Trim(attribute.value)];
        out := out[IndexedKey(loop.valuePrefix.value, pos) := Trim(value.value)];
      } else {
        break;
      }
      pos := pos + 1;
    }
  }

  /** The loop of the result attribute table (:1536-1549): one column per row. */
  method EncodeNames(props: Props, rows: seq<EditorRow>, loop: TableLoop) returns (out: Props)
    requires loop.valuePrefix.None?
    ensures out == Encoded(props, rows, loop, Saved(rows, loop))
  {
    out := props;
    var pos := 0;
    while pos < |rows|
      invariant pos <= Saved(rows, loop)
      invariant out == Encoded(props, rows, loop, pos)
    {
      var attribute := rows[pos].attribute;
      if attribute.Some? {
        assert Filled(rows[pos], loop) == Some((attribute.value, ""));
        assert Encoded(props, rows, loop, pos + 1) == PutRow(out, loop, pos, (attribute.value, ""));
        out := out[IndexedKey(loop.attributePrefix, pos) := Trim(attribute.value)];
      } else {
        break;
      }
      pos := pos + 1;
    }
  }

  // ---------------------------------------------------------------------
  // The round trip through setConfiguration's loops

  /** The attribute and value keys never coincide: the two prefixes differ at a common position. */
  predicate SeparateColumns(loop: TableLoop) {
    match loop.valuePrefix
    case None => true
    case Some(vp) => exists k :: 0 <= k < |loop.attributePrefix| && k < |vp| && loop.attributePrefix[k] != vp[k]
  }

  lemma EditorLoopsSeparate()
    ensures SeparateColumns(FilterLoop) && SeparateColumns(OutputLoop) && SeparateColumns(GridLoop)
  {
    assert FilterAttributePrefix[14] != FilterValuePrefix[14];
    assert ResultTableAttributePrefix[13] != ResultTableValuePrefix[13];
  }

  lemma ColumnsDiffer(loop: TableLoop, i: nat, j: nat)
    requires SeparateColumns(loop) && loop.valuePrefix.Some?
    ensures IndexedKey(loop.attributePrefix, i) != IndexedKey(loop.valuePrefix.value, j)
  {
    var k :| 0 <= k < |loop.attributePrefix| && k < |loop.valuePrefix.value| && loop.attributePrefix[k] != loop.valuePrefix.value[k];
    assert IndexedKey(loop.attributePrefix, i)[k] == loop.attributePrefix[k];
    assert IndexedKey(loop.valuePrefix.value, j)[k] == loop.valuePrefix.value[k];
  }

  /** The properties after one more saved row: that row's cells put over the rows before. */
  lemma EncodedSnoc(props: Props, rows: seq<EditorRow>, loop: TableLoop, n: nat)
    requires 0 < n <= Saved(rows, loop)
    ensures Encoded(props, rows, loop, n) == PutRow(Encoded(props, rows, loop, n - 1), loop, n - 1, Filled(rows[n - 1], loop).value)
  {
  }

  /** Putting row `i` sets its attribute key and leaves the attribute keys of the other rows alone. */
  lemma PutRowAttribute(props: Props, loop: TableLoop, i: nat, cells: (string, string), j: nat)
    requires SeparateColumns(loop)
    ensures var out := PutRow(props, loop, i, cells);
            var key := IndexedKey(loop.attributePrefix, j);
            (j == i ==> key in out && out[key] == Trim(cells.0))
            && (j != i ==> (key in out <==> key in props) && (key in props ==> out[key] == props[key]))
  {
    IndexedKeyInjective(loop.attributePrefix, i, j);
    if loop.valuePrefix.Some? {
      ColumnsDiffer(loop, j, i);
    }
  }

  /** Putting row `i` of a two-column table sets its value key and leaves the value keys of the other rows alone. */
  lemma PutRowValue(props: Props, loop: TableLoop, i: nat, cells: (string, string), j: nat)
    requires SeparateColumns(loop) && loop.valuePrefix.Some?
    ensures var out := PutRow(props, loop, i, cells);
            var key := IndexedKey(loop.valuePrefix.value, j);
            (j == i ==> key in out && out[key] == Trim(cells.1))
            && (j != i ==> (key in out <==> key in props) && (key in props ==> out[key] == props[key]))
  {
    IndexedKeyInjective(loop.valuePrefix.value, i, j);
    ColumnsDiffer(loop, i, j);
  }

  /** The attribute key of a saved row holds its trimmed attribute cell. */
  lemma {:induction false} EncodedAttribute(props: Props, rows: seq<EditorRow>, loop: TableLoop, n: nat, i: nat)
    requires n <= Saved(rows, loop) && SeparateColumns(loop) && i < n
    ensures IndexedKey(loop.attributePrefix, i) in Encoded(props, rows, loop, n)
    ensures Encoded(props, rows, loop, n)[IndexedKey(loop.attributePrefix, i)] == Trim(Filled(rows[i], loop).value.0)
  {
    EncodedSnoc(props, rows, loop, n);
    PutRowAttribute(Encoded(props, rows, loop, n - 1), loop, n - 1, Filled(rows[n - 1], loop).value, i);
    if i < n - 1 {
      EncodedAttribute(props, rows, loop, n - 1, i);
    }
  }

  /** The value key of a saved row of a two-column table holds its trimmed value cell. */
  lemma {:induction false} EncodedValue(props: Props, rows: seq<EditorRow>, loop: TableLoop, n: nat, i: nat)
    requires n <= Saved(rows, loop) && SeparateColumns(loop) && loop.valuePrefix.Some? && i < n
    ensures IndexedKey(loop.valuePrefix.value, i) in Encoded(props, rows, loop, n)
    ensures Encoded(props, rows, loop, n)[IndexedKey(loop.valuePrefix.value, i)] == Trim(Filled(rows[i], loop).value.1)
  {
    EncodedSnoc(props, rows, loop, n);
    PutRowValue(Encoded(props, rows, loop, n - 1), loop, n - 1, Filled(rows[n - 1], loop).value, i);
    if i < n - 1 {
      EncodedValue(props, rows, loop, n - 1, i);
    }
  }

  /** The attribute keys after the saved rows are as they were. */
  lemma {:induction false} EncodedBeyond(props: Props, rows: seq<EditorRow>, loop: TableLoop, n: nat, i: nat)
    requires n <= Saved(rows, loop) && SeparateColumns(loop) && i >= n
    ensures IndexedKey(loop.attributePrefix, i) in Encoded(props, rows, loop, n) <==> IndexedKey(loop.attributePrefix, i) in props
  {
    if n > 0 {
      EncodedSnoc(props, rows, loop, n);
      PutRowAttribute(Encoded(props, rows, loop, n - 1), loop, n - 1, Filled(rows[n - 1], loop).value, i);
      EncodedBeyond(props, rows, loop, n - 1, i);
    }
  }

  /**
   * Saving a table and reading it back: setConfiguration's loop reads exactly the saved rows,
   * each with its trimmed cells (a filter value also loses a leading "in."), provided the key
   * after the last saved row is not already set.
   */
  lemma EncodeThenDecode(props: Props, rows: seq<EditorRow>, loop: TableLoop)
    requires SeparateColumns(loop)
    requires IndexedKey(loop.attributePrefix, Saved(rows, loop)) !in props
    ensures var out := Encoded(props, rows, loop, Saved(rows, loop));
            RowCount(out, loop) == Saved(rows, loop)
    ensures var out := Encoded(props, rows, loop, Saved(rows, loop));
            forall i :: 0 <= i < Saved(rows, loop) ==>
              Present(out, Prefixes(loop), i)
              && AttributeAt(out, loop, i) == Trim(Filled(rows[i], loop).value.0)
              && ValueAt(out, loop, i)
                 == match loop.valuePrefix
                    case None => ""
                    case Some(_) =>
                      var v := Trim(Filled(rows[i], loop).value.1);
                      if loop.stripValue then StripMarker(v) else v
  {
    var n := Saved(rows, loop);
    var out := Encoded(props, rows, loop, n);
    forall i | 0 <= i < n
      ensures Present(out, Prefixes(loop), i)
      ensures AttributeAt(out, loop, i) == Trim(Filled(rows[i], loop).value.0)
    {
      EncodedAttribute(props, rows, loop, n, i);
      if loop.valuePrefix.Some? {
        EncodedValue(props, rows, loop, n, i);
      }
    }
    assert !Present(out, Prefixes(loop), n) by {
      EncodedBeyond(props, rows, loop, n, n);
      assert loop.attributePrefix in Prefixes(loop);
    }
    RowCountIs(out, loop, n);
    forall i | 0 <= i < n
      ensures ValueAt(out, loop, i)
           == match loop.valuePrefix
              case None => ""
              case Some(_) =>
                var v := Trim(Filled(rows[i], loop).value.1);
                if loop.stripValue then StripMarker(v) else v
    {
      if loop.valuePrefix.Some? {
        EncodedValue(props, rows, loop, n, i);
        assert loop.valuePrefix.value in Prefixes(loop);
      }
    }
  }
}
