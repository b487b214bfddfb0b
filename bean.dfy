/**
 * The LDAP query element (LdapQueryBeanRS): its configuration fields, setConfiguration, the
 * base object of the search (getRootObjectName), and perform, which builds the filter, runs
 * the search and maps the entries found to the process data.
 */
module Bean {
  import opened Wrappers
  import opened Text
  import opened Script
  import opened Composite
  import opened Config
  import opened Filter
  import opened Rows
  import opened Table

  /** The directory: the entries a search with this base object, filter and scope returns, in order. */
  type Directory = (string, string, Scope) -> seq<Entry>

  // ---------------------------------------------------------------------
  // The base object of the search

  /**
   * getRootObjectName as written: the quote test looks at the trimmed name, but the quotes are
   * cut from the untrimmed one. Otherwise the name is resolved as a variable, the literal
   * name standing in for null.
   */
  function RootObjectNameAsWritten(vars: Variables, root: Option<string>): Result<string> {
    match root
    case None => Err(NullPointer)
    case Some(name) =>
      var t := Trim(name);
      if StartsWith(t, "\"") && EndsWith(t, "\"") then
        if |name| < 2 then Err(IndexOutOfBounds) else Ok(name[1..|name| - 1])
      else
        ResolvedRoot(vars, name)
  }

  /** getRootObjectName with the quotes cut from the trimmed name, the text the quote test looked at. */
  function RootObjectName(vars: Variables, root: Option<string>): Result<string> {
    match root
    case None => Err(NullPointer)
    case Some(name) =>
      var t := Trim(name);
      if StartsWith(t, "\"") && EndsWith(t, "\"") then
        if |t| < 2 then Err(IndexOutOfBounds) else Ok(t[1..|t| - 1])
      else
        ResolvedRoot(vars, name)
  }

  /** `(String) getVariable(name)`, or the name itself when that is null. */
  function ResolvedRoot(vars: Variables, name: string): Result<string> {
    var v :- AsString(vars(name));
    Ok(match v case None => name case Some(s) => s)
  }

  /** A quoted base object, padded with spaces, is the text between the quotes. */
  lemma QuotedRoot(vars: Variables, p: string, m: string, q: string)
    requires forall k :: 0 <= k < |p| ==> IsSpace(p[k])
    requires forall k :: 0 <= k < |q| ==> IsSpace(q[k])
    ensures RootObjectName(vars, Some(p + ("\"" + m + "\"") + q)) == Ok(m)
  {
    var core := "\"" + m + "\"";
    TrimPadded(p, core, q);
    assert core[..1] == "\"";
    assert core[|core| - 1..] == "\"";
    assert core[1..|core| - 1] == m;
  }

  /** As written, one leading space keeps the opening quote and loses the last character of the name. */
  lemma QuotedRootAsWritten(vars: Variables, m: string)
    ensures RootObjectNameAsWritten(vars, Some(" " + ("\"" + m + "\""))) == Ok("\"" + m)
  {
    var core := "\"" + m + "\"";
    var name := " " + core;
    assert IsSpace(' ');
    TrimPadded(" ", core, "");
    assert " " + core + "" == name;
    assert core[..1] == "\"";
    assert core[|core| - 1..] == "\"";
    assert name[1..|name| - 1] == "\"" + m;
  }

  /** An unquoted base object is its variable's value, or the name itself. */
  lemma UnquotedRoot(vars: Variables, name: string)
    requires !StartsWith(Trim(name), "\"")
    ensures RootObjectName(vars, Some(name)) == RootObjectNameAsWritten(vars, Some(name))
    ensures vars(name).None? ==> RootObjectName(vars, Some(name)) == Ok(name)
    ensures vars(name).Some? && vars(name).value.Str? ==> RootObjectName(vars, Some(name)) == Ok(vars(name).value.s)
    ensures vars(name).Some? && vars(name).value.Object? ==> RootObjectName(vars, Some(name)) == Err(ClassCast)
  {
  }

  /**
   * The corrected and the as-written base object differ only for a quoted name with blanks
   * around it: without them, or without quotes, both give the same result.
   */
  lemma RootAgreesUnpadded(vars: Variables, name: string)
    requires Trim(name) == name || !(StartsWith(Trim(name), "\"") && EndsWith(Trim(name), "\""))
    ensures RootObjectName(vars, Some(name)) == RootObjectNameAsWritten(vars, Some(name))
  {
  }

  // ---------------------------------------------------------------------
  // The result list of "all" mode, as written

  /**
   * perform's result in "all" mode as written: appendSearchResultToRow fills a Vector it
   * assigned to its own parameter, so the caller's `row` stays null and one null per entry
   * is collected. The rows are still built, so their exceptions still occur.
   */
  function GridValueAsWritten(vars: Variables, includeName: bool, keys: seq<string>, sortBy: Option<string>,
                              base: string, entries: seq<Entry>, isRecordset: bool): Result<Data>
  {
    var rows :- GridRows(includeName, keys, base, entries);
    if !isRecordset then Ok(List(seq(|rows|, _ => Null)))
    else if rows == [] then Ok(Null)
    else
      var _ :- ResolveSortName(vars, sortBy);
      // Row 0 is copied cell by cell from null; with no column, row 1's scan reads its key from null.
      if |ColumnNames(includeName, keys)| > 0 || |rows| > 1 then Err(NullPointer)
      else Ok(Records([], [[]]))
  }

  /** The result list as perform means it: one Vector per entry, null cells kept. */
  function RowList(rows: seq<seq<Cell>>): Data {
    List(seq(|rows|, i requires 0 <= i < |rows| => List(seq(|rows[i]|, k requires 0 <= k < |rows[i]| => CellData(rows[i][k])))))
  }

  /** The grid value as perform means it: the list of rows, or the sorted Recordset. */
  function GridValue(vars: Variables, includeName: bool, keys: seq<string>, sortBy: Option<string>, descending: bool,
                     base: string, entries: seq<Entry>, isRecordset: bool): Result<Data>
  {
    var rows :- GridRows(includeName, keys, base, entries);
    if !isRecordset then Ok(RowList(rows))
    else if rows == [] then Ok(Null)
    else
      var name :- ResolveSortName(vars, sortBy);
      RecordsetOf(includeName, keys, name, descending, rows)
  }

  /** Corrected, the list holds one element per entry found: the cells of that entry's row, in search order. */
  lemma GridListHoldsRows(vars: Variables, includeName: bool, keys: seq<string>, sortBy: Option<string>, descending: bool,
                          base: string, entries: seq<Entry>, i: nat)
    requires GridRows(includeName, keys, base, entries).Ok? && i < |entries|
    ensures GridValue(vars, includeName, keys, sortBy, descending, base, entries, false).Ok?
    ensures var list := GridValue(vars, includeName, keys, sortBy, descending, base, entries, false).value;
            var row := BuildRow(includeName, keys, base, entries[i]);
            list.List? && |list.elements| == |entries| && row.Ok?
            && list.elements[i] == List(seq(|row.value|, k requires 0 <= k < |row.value| => CellData(row.value[k])))
  {
    GridRowsAreEntryRows(includeName, keys, base, entries, i);
  }

  /** As written, every entry found is lost from the list: each element is null, where a row was meant. */
  lemma RowsLostAsWritten(vars: Variables, includeName: bool, keys: seq<string>, sortBy: Option<string>, descending: bool,
                          base: string, entries: seq<Entry>)
    requires GridRows(includeName, keys, base, entries).Ok? && |entries| > 0
    ensures GridValueAsWritten(vars, includeName, keys, sortBy, base, entries, false).Ok?
    ensures forall i :: 0 <= i < |entries| ==> GridValueAsWritten(vars, includeName, keys, sortBy, base, entries, false).value.elements[i] == Null
    ensures GridValue(vars, includeName, keys, sortBy, descending, base, entries, false).Ok?
    ensures forall i :: 0 <= i < |entries| ==> GridValue(vars, includeName, keys, sortBy, descending, base, entries, false).value.elements[i].List?
    ensures GridValueAsWritten(vars, includeName, keys, sortBy, base, entries, false)
         != GridValue(vars, includeName, keys, sortBy, descending, base, entries, false)
  {
    var asWritten := GridValueAsWritten(vars, includeName, keys, sortBy, base, entries, false).value;
    var meant := GridValue(vars, includeName, keys, sortBy, descending, base, entries, false).value;
    assert asWritten.elements[0] != meant.elements[0];
  }

  /** As written, a Recordset result with at least one column always throws once anything is found. */
  lemma RecordsetFailsAsWritten(vars: Variables, includeName: bool, keys: seq<string>, sortBy: Option<string>,
                                base: string, entries: seq<Entry>)
    requires GridRows(includeName, keys, base, entries).Ok? && |entries| > 0
    requires ResolveSortName(vars, sortBy).Ok?
    requires includeName || |keys| > 0
    ensures GridValueAsWritten(vars, includeName, keys, sortBy, base, entries, true) == Err(NullPointer)
  {
  }

  // ---------------------------------------------------------------------
  // The element

  class LdapQueryBean {
    /** The base object of the search; null until configured. */
    var rootObjectName: Option<string>
    /** The scope of SearchControls. */
    var scope: Scope
    /** filterAttributesHashtable: attribute to value expression. */
    var filterTable: map<string, string>
    /** anyFilterText: the free-text filter, when that format was chosen. */
    var filterText: Option<string>
    /** ivyGridAttribute: where "all" mode stores its result; null in first-only mode. */
    var gridAttribute: Option<string>
    /** resultAttributesHashtable: result attribute to the output it is written to. */
    var bindings: map<string, string>
    /** resultAttributesKeys: the result attributes in configured order, repeats included. */
    var resultKeys: seq<string>
    var includeName: bool
    /** ivyGridNameAttribute: where first-only mode writes the entry name. */
    var nameAttribute: Option<string>
    /** sortByAttribute: a header name, or an expression giving one. */
    var sortBy: Option<string>
    var descending: bool

    /** The configuration fields as one value. */
    function Current(): Settings
      reads this
    {
      Settings(rootObjectName, scope, filterTable, filterText, gridAttribute, bindings, resultKeys, includeName,
               nameAttribute, sortBy, descending)
    }

    /** The result keys list exactly the bound attributes. */
    ghost predicate Valid()
      reads this
    {
      KeysBound(Current())
    }

    /** The element as constructed: nothing configured; SearchControls defaults to one-level scope. */
    constructor()
      ensures Valid()
      ensures rootObjectName == None && scope == OneLevel && filterTable == map[] && filterText == None
      ensures gridAttribute == None && bindings == map[] && resultKeys == [] && !includeName
      ensures nameAttribute == None && sortBy == None && !descending
    {
      rootObjectName := None;
      scope := OneLevel;
      filterTable := map[];
      filterText := None;
      gridAttribute := None;
      bindings := map[];
      resultKeys := [];
      includeName := false;
      nameAttribute := None;
      sortBy := None;
      descending := false;
    }

    // -------------------------------------------------------------------
    // setConfiguration

    /** The base object with a leading "in." cut, and the search scope (:171-188). */
    method ReadSearchSettings(props: Props)
      modifies this`rootObjectName, this`scope
      ensures Current() == ReadSearch(old(Current()), props)
    {
      rootObjectName := Some(StripMarker(GetOr(props, RootObjectKey, "")));
      scope := ScopeOf(GetOr(props, ScopeKey, ""));
    }

    /** The filter table loop (:190-206): pairs up to the first missing key, "in." cut from values. */
    method ReadFilterTable(props: Props)
      modifies this`filterTable
      ensures Current() == ReadFilter(old(Current()), props)
    {
      ghost var n := RowCount(props, FilterLoop);
      var pos := 0;
      while true
        invariant 0 <= pos <= n
        invariant filterTable == Puts(old(filterTable), props, FilterLoop, pos)
        decreases n - pos
      {
        var attribute := Get(props, IndexedKey(FilterAttributePrefix, pos));
        var value := Get(props, IndexedKey(FilterValuePrefix, pos));
        if attribute.Some? && value.Some? && attribute.value != "" {
          filterTable := filterTable[attribute.value := StripMarker(value.value)];
        }
        if !(attribute.Some? && value.Some?) {
          assert !Present(props, Prefixes(FilterLoop), pos) by {
            assert FilterAttributePrefix in Prefixes(FilterLoop) && FilterValuePrefix in Prefixes(FilterLoop);
          }
          assert pos == n;
          break;
        }
        assert Present(props, Prefixes(FilterLoop), pos);
        pos := pos + 1;
      }
    }

    /** The result attribute loop of "all" mode (:216-227): each name bound to "" and appended. */
    method ReadGridAttributes(props: Props)
      modifies this`bindings, this`resultKeys
      ensures bindings == Puts(old(bindings), props, GridLoop, RowCount(props, GridLoop))
      ensures resultKeys == old(resultKeys) + AttributeNames(props, GridLoop, RowCount(props, GridLoop))
    {
      ghost var n := RowCount(props, GridLoop);
      var pos := 0;
      while true
        invariant 0 <= pos <= n
        invariant bindings == Puts(old(bindings), props, GridLoop, pos)
        invariant resultKeys == old(resultKeys) + AttributeNames(props, GridLoop, pos)
        decreases n - pos
      {
        var attribute := Get(props, IndexedKey(ResultAttributePrefix, pos));
        if attribute.Some? && attribute.value != "" {
          bindings := bindings[attribute.value := ""];
          resultKeys := resultKeys + [attribute.value];
        }
        if attribute.None? {
          assert !Present(props, Prefixes(GridLoop), pos) by {
            assert ResultAttributePrefix in Prefixes(GridLoop);
          }
          assert pos == n;
          break;
        }
        assert Present(props, Prefixes(GridLoop), pos);
        pos := pos + 1;
      }
    }

    /** The result table loop of first-only mode (:231-245): each attribute bound to its output. */
    method ReadOutputTable(props: Props)
      modifies this`bindings, this`resultKeys
      ensures bindings == Puts(old(bindings), props, OutputLoop, RowCount(props, OutputLoop))
      ensures resultKeys == old(resultKeys) + AttributeNames(props, OutputLoop, RowCount(props, OutputLoop))
    {
      ghost var n := RowCount(props, OutputLoop);
      var pos := 0;
      while true
        invariant 0 <= pos <= n
        invariant bindings == Puts(old(bindings), props, OutputLoop, pos)
        invariant resultKeys == old(resultKeys) + AttributeNames(props, OutputLoop, pos)
        decreases n - pos
      {
        var attribute := Get(props, IndexedKey(ResultTableAttributePrefix, pos));
        var value := Get(props, IndexedKey(ResultTableValuePrefix, pos));
        if attribute.Some? && value.Some? && attribute.value != "" {
          bindings := bindings[attribute.value := value.value];
          resultKeys := resultKeys + [attribute.value];
        }
        if !(attribute.Some? && value.Some?) {
          assert !Present(props, Prefixes(OutputLoop), pos) by {
            assert ResultTableAttributePrefix in Prefixes(OutputLoop) && ResultTableValuePrefix in Prefixes(OutputLoop);
          }
          assert pos == n;
          break;
        }
        assert Present(props, Prefixes(OutputLoop), pos);
        pos := pos + 1;
      }
    }

    /**
     * setConfiguration (:131-311) after the property text is parsed; None is a null configuration,
     * which changes nothing. The tables are added to, never cleared, and the grid attribute is only
     * ever set. The server settings are not part of this model.
     */
    method SetConfiguration(configuration: Option<Props>)
      requires Valid()
      modifies this
      ensures Valid()
      ensures configuration.None? ==> unchanged(this)
      ensures configuration.Some? ==> Current() == Configure(old(Current()), configuration.value)
    {
      if configuration.Some? {
        var props := configuration.value;
        ReadSearchSettings(props);
        ReadFilterTable(props);
        ReadResultAttributes(props);
        ReadResultOptions(props);
        ConfigureKeepsKeysBound(old(Current()), props);
      }
    }

    /** The result part of setConfiguration (:208-245): the grid attribute in "all" mode, and that mode's table. */
    method ReadResultAttributes(props: Props)
      modifies this`gridAttribute, this`bindings, this`resultKeys
      ensures Current() == ReadResults(old(Current()), props)
    {
      if AllMode(props) {
        gridAttribute := Some(StripMarker(GetOr(props, GridAttributeKey, "")));
        ReadGridAttributes(props);
      } else {
        ReadOutputTable(props);
      }
    }

    /** The settings read after the tables (:246-281). */
    method ReadResultOptions(props: Props)
      modifies this`includeName, this`filterText, this`nameAttribute, this`sortBy, this`descending
      ensures Current() == ReadOptions(old(Current()), props)
    {
      includeName := ParseBoolean(GetOr(props, IncludeNameKeyFor(gridAttribute), "false"));
      if TextFormat(props) {
        filterText := Get(props, FilterTextKey);
      }
      var n := StripMarker(GetOr(props, NameAttributeKey, ""));
      nameAttribute := Some(n);
      sortBy := Some(GetOr(props, SortAttributeKey, ""));
      descending := Get(props, SortOrderKey) == Some("descending");
    }

    // -------------------------------------------------------------------
    // perform and its parts

    /** buildSearchFilter: the free-text filter when one is set, else the table filter. */
    function SearchFilter(vars: Variables, filterKeys: seq<string>): Result<string>
      reads this
      requires Enumerates(filterKeys, filterTable)
    {
      match filterText
      case Some(text) => Expand(vars, text, 0)
      case None => TableFilter(vars, filterTable, filterKeys)
    }

    method BuildSearchFilter(vars: Variables, filterKeys: seq<string>) returns (r: Result<string>)
      requires Enumerates(filterKeys, filterTable)
      ensures r == SearchFilter(vars, filterKeys)
    {
      if filterText.Some? {
        r := ExpandFilterText(vars, filterText.value);
      } else {
        r := BuildTableFilter(vars, filterTable, filterKeys);
      }
    }

    /** setNoResult (:523-539): in first-only mode every bound output, then the name output, set to null. */
    method SetNoResult(argument: Fields) returns (r: Result<Fields>)
      ensures r == (if gridAttribute.None? then NoResult(argument, resultKeys, bindings, includeName, nameAttribute) else Ok(argument))
    {
      if gridAttribute.Some? {
        return Ok(argument);
      }
      var fields := argument;
      var i := 0;
      while i < |resultKeys|
        invariant 0 <= i <= |resultKeys|
        invariant Cleared(argument, resultKeys[..i], bindings) == Ok(fields)
      {
        var attribute := resultKeys[i];
        assert resultKeys[..i + 1][..i] == resultKeys[..i];
        var written := WriteBound(fields, bindings, attribute, Null);
        if written.Err? {
          ClearedFirstError(argument, resultKeys, bindings, i + 1);
          return Err(written.error);
        }
        fields := written.value;
        i := i + 1;
      }
      assert resultKeys[..i] == resultKeys;
      if includeName {
        if nameAttribute.None? {
          return Err(NullPointer);
        }
        r := SetVariable(fields, nameAttribute.value, Null);
      } else {
        r := Ok(fields);
      }
    }

    /** appendSearchResultToRow in "all" mode (:644-668): the name cell if included, then a cell per key. */
    method AppendRow(base: string, entry: Entry) returns (r: Result<seq<Cell>>)
      ensures r == BuildRow(includeName, resultKeys, base, entry)
    {
      var row: seq<Cell> := [];
      if includeName {
        var name := EntryName(entry.name, base);
        if name.Err? {
          return Err(name.error);
        }
        row := [match name.value case None => NullCell case Some(n) => Text(n)];
      }
      ghost var head := row;
      assert BuildRow(includeName, resultKeys, base, entry) == Ok(head + AttributeCells(entry, resultKeys)) by {
        if !includeName {
          assert head + AttributeCells(entry, resultKeys) == AttributeCells(entry, resultKeys);
        }
      }
      var i := 0;
      while i < |resultKeys|
        invariant 0 <= i <= |resultKeys|
        invariant head + AttributeCells(entry, resultKeys) == row + AttributeCells(entry, resultKeys[i..])
      {
        var cells := GridCells(AttributeOf(entry, resultKeys[i]));
        AttributeCellsStep(entry, resultKeys, i);
        assert row + (cells + AttributeCells(entry, resultKeys[i + 1..])) == (row + cells) + AttributeCells(entry, resultKeys[i + 1..]);
        row := row + cells;
        i := i + 1;
      }
      assert resultKeys[i..] == [];
      assert row + AttributeCells(entry, resultKeys[i..]) == row;
      r := Ok(row);
    }

    /** appendSearchResultToRow in first-only mode: the name written if included, then each attribute that has values. */
    method AppendOutputs(argument: Fields, base: string, entry: Entry) returns (r: Result<Fields>)
      ensures r == WriteFirstEntry(argument, includeName, nameAttribute, resultKeys, bindings, base, entry)
    {
      var fields := argument;
      if includeName {
        var name := EntryName(entry.name, base);
        if name.Err? {
          return Err(name.error);
        }
        if nameAttribute.None? {
          return Err(NullPointer);
        }
        var written := SetVariable(fields, nameAttribute.value, OptionData(name.value));
        if written.Err? {
          return Err(written.error);
        }
        fields := written.value;
      }
      ghost var named := fields;
      var i := 0;
      while i < |resultKeys|
        invariant 0 <= i <= |resultKeys|
        invariant WriteAttributes(named, resultKeys, bindings, entry) == WriteAttributes(fields, resultKeys[i..], bindings, entry)
      {
        assert resultKeys[i..][1..] == resultKeys[i + 1..];
        var value := OutputValue(AttributeOf(entry, resultKeys[i]));
        if value.Some? {
          var written := WriteBound(fields, bindings, resultKeys[i], value.value);
          if written.Err? {
            return Err(written.error);
          }
          fields := written.value;
        }
        i := i + 1;
      }
      assert resultKeys[i..] == [];
      r := Ok(fields);
    }

    /** perform's loop over the search results in "all" mode (:363-379): a row per entry, in order. */
    method CollectRows(base: string, entries: seq<Entry>) returns (r: Result<seq<seq<Cell>>>)
      ensures r == GridRows(includeName, resultKeys, base, entries)
    {
      var result: seq<seq<Cell>> := [];
      var i := 0;
      while i < |entries|
        invariant 0 <= i <= |entries|
        invariant GridRows(includeName, resultKeys, base, entries[..i]) == Ok(result)
      {
        assert entries[..i + 1][..i] == entries[..i];
        var row := AppendRow(base, entries[i]);
        if row.Err? {
          GridRowsFirstError(includeName, resultKeys, base, entries, i + 1);
          return Err(row.error);
        }
        result := result + [row.value];
        i := i + 1;
      }
      assert entries[..i] == entries;
      r := Ok(result);
    }

    /**
     * mapToRecordsetAttribute (:557-642): null for no rows; otherwise the sort name is resolved and
     * kept in the field, the sort column found, the rows sorted into the table and the Recordset
     * built with the null cells dropped.
     */
    method MapToRecordset(vars: Variables, rows: seq<seq<Cell>>) returns (r: Result<Data>)
      modifies this`sortBy
      ensures rows == [] ==> r == Ok(Null) && sortBy == old(sortBy)
      ensures rows != [] ==>
        match ResolveSortName(vars, old(sortBy))
        case Err(e) => r == Err(e) && sortBy == old(sortBy)
        case Ok(name) => sortBy == Some(name) && r == RecordsetOf(includeName, resultKeys, name, descending, rows)
    {
      if rows == [] {
        return Ok(Null);
      }
      var columns := ColumnNames(includeName, resultKeys);
      var name := ResolveSortName(vars, sortBy);
      if name.Err? {
        return Err(name.error);
      }
      sortBy := Some(name.value);
      var col := SortColumn(columns, name.value);
      var sorted := SortIntoTable(rows, col, descending, |columns|);
      if sorted.Err? {
        return Err(sorted.error);
      }
      var table := BuildRecordset(columns, sorted.value);
      r := Ok(table);
    }

    /** What perform returns, in the state before the call. */
    function Outcome(vars: Variables, directory: Directory, filterKeys: seq<string>, isRecordset: bool,
                     argument: Fields): Result<Fields>
      reads this
      requires Enumerates(filterKeys, filterTable)
    {
      var filter :- SearchFilter(vars, filterKeys);
      var base :- RootObjectName(vars, rootObjectName);
      var entries := directory(base, filter, scope);
      match gridAttribute
      case None =>
        if entries == [] then NoResult(argument, resultKeys, bindings, includeName, nameAttribute)
        else WriteFirstEntry(argument, includeName, nameAttribute, resultKeys, bindings, base, entries[0])
      case Some(grid) =>
        var value :- GridValue(vars, includeName, resultKeys, sortBy, descending, base, entries, isRecordset);
        SetVariable(argument, grid, value)
    }

    /** The sort name perform leaves behind: resolved when a Recordset of at least one row is built. */
    function SortByAfter(vars: Variables, directory: Directory, filterKeys: seq<string>, isRecordset: bool): Option<string>
      reads this
      requires Enumerates(filterKeys, filterTable)
    {
      match SearchFilter(vars, filterKeys)
      case Err(_) => sortBy
      case Ok(filter) =>
        match RootObjectName(vars, rootObjectName)
        case Err(_) => sortBy
        case Ok(base) =>
          if gridAttribute.None? then sortBy else GridSortBy(vars, base, directory(base, filter, scope), isRecordset)
    }

    /** The sort name after the grid value for these entries is built. */
    function GridSortBy(vars: Variables, base: string, entries: seq<Entry>, isRecordset: bool): Option<string>
      reads this
    {
      match GridRows(includeName, resultKeys, base, entries)
      case Err(_) => sortBy
      case Ok(rows) =>
        if !isRecordset || rows == [] then sortBy
        else
          match ResolveSortName(vars, sortBy)
          case Err(_) => sortBy
          case Ok(name) => Some(name)
    }

    /** "all" mode's value (:363-391): a row per entry, stored as a list or mapped to a Recordset. */
    method BuildGridValue(vars: Variables, base: string, entries: seq<Entry>, isRecordset: bool) returns (r: Result<Data>)
      modifies this`sortBy
      ensures r == old(GridValue(vars, includeName, resultKeys, sortBy, descending, base, entries, isRecordset))
      ensures sortBy == old(GridSortBy(vars, base, entries, isRecordset))
    {
      var rows := CollectRows(base, entries);
      if rows.Err? {
        return Err(rows.error);
      }
      if isRecordset {
        r := MapToRecordset(vars, rows.value);
      } else {
        r := Ok(RowList(rows.value));
      }
    }

    /**
     * perform (:333-400): the filter and the base object, then the search; first-only mode clears
     * its outputs when nothing is found and otherwise maps the first entry and returns; "all" mode
     * collects a row per entry and stores the list, or the Recordset, in the grid attribute.
     */
    method Perform(vars: Variables, directory: Directory, filterKeys: seq<string>, isRecordset: bool,
                   argument: Fields) returns (r: Result<Fields>)
      requires Enumerates(filterKeys, filterTable)
      modifies this`sortBy
      ensures r == old(Outcome(vars, directory, filterKeys, isRecordset, argument))
      ensures sortBy == old(SortByAfter(vars, directory, filterKeys, isRecordset))
    {
      var filter := BuildSearchFilter(vars, filterKeys);
      if filter.Err? {
        return Err(filter.error);
      }
      var objectName := RootObjectName(vars, rootObjectName);
      if objectName.Err? {
        return Err(objectName.error);
      }
      var base := objectName.value;
      var entries := directory(base, filter.value, scope);
      if entries == [] {
        r := SetNoResult(argument);
        if r.Err? || gridAttribute.None? {
          return;
        }
      } else if gridAttribute.None? {
        r := AppendOutputs(argument, base, entries[0]);
        return;
      }
      var value := BuildGridValue(vars, base, entries, isRecordset);
      if value.Err? {
        return Err(value.error);
      }
      r := SetVariable(argument, gridAttribute.value, value.value);
    }

    // -------------------------------------------------------------------
    // What perform promises

    /** First-only mode maps only the first entry found: what follows it makes no difference. */
    lemma FirstEntryOnly(vars: Variables, d1: Directory, d2: Directory, filterKeys: seq<string>, isRecordset: bool,
                         argument: Fields)
      requires Enumerates(filterKeys, filterTable) && gridAttribute.None?
      requires SearchFilter(vars, filterKeys).Ok? && RootObjectName(vars, rootObjectName).Ok?
      requires var q := (RootObjectName(vars, rootObjectName).value, SearchFilter(vars, filterKeys).value, scope);
               |d1(q.0, q.1, q.2)| > 0 && |d2(q.0, q.1, q.2)| > 0 && d1(q.0, q.1, q.2)[0] == d2(q.0, q.1, q.2)[0]
      ensures Outcome(vars, d1, filterKeys, isRecordset, argument) == Outcome(vars, d2, filterKeys, isRecordset, argument)
      ensures Outcome(vars, d1, filterKeys, isRecordset, argument)
           == WriteFirstEntry(argument, includeName, nameAttribute, resultKeys, bindings,
                              RootObjectName(vars, rootObjectName).value,
                              d1(RootObjectName(vars, rootObjectName).value, SearchFilter(vars, filterKeys).value, scope)[0])
    {
    }

    /** With nothing found, first-only mode sets every bound output, and the name output, to null. */
    lemma NothingFoundClearsOutputs(vars: Variables, directory: Directory, filterKeys: seq<string>, isRecordset: bool,
                                    argument: Fields)
      requires Enumerates(filterKeys, filterTable) && gridAttribute.None?
      requires UnnestedTargets(resultKeys, bindings)
      requires includeName && nameAttribute.Some? ==> forall k :: k in resultKeys ==> Unnested(bindings[k], nameAttribute.value)
      requires SearchFilter(vars, filterKeys).Ok? && RootObjectName(vars, rootObjectName).Ok?
      requires directory(RootObjectName(vars, rootObjectName).value, SearchFilter(vars, filterKeys).value, scope) == []
      requires NoResult(argument, resultKeys, bindings, includeName, nameAttribute).Ok?
      ensures Outcome(vars, directory, filterKeys, isRecordset, argument) == NoResult(argument, resultKeys, bindings, includeName, nameAttribute)
      ensures forall i :: 0 <= i < |resultKeys| ==>
                Lookup(Outcome(vars, directory, filterKeys, isRecordset, argument).value, bindings[resultKeys[i]]) == Some(Null)
      ensures includeName ==>
                nameAttribute.Some?
                && Lookup(Outcome(vars, directory, filterKeys, isRecordset, argument).value, nameAttribute.value) == Some(Null)
    {
      NoResultReadsNull(argument, resultKeys, bindings, includeName, nameAttribute);
    }

    /** With nothing found, "all" mode stores an empty list, or null for a Recordset, and writes nothing else. */
    lemma NothingFoundInGrid(vars: Variables, directory: Directory, filterKeys: seq<string>, isRecordset: bool,
                             argument: Fields)
      requires Enumerates(filterKeys, filterTable) && gridAttribute.Some?
      requires SearchFilter(vars, filterKeys).Ok? && RootObjectName(vars, rootObjectName).Ok?
      requires directory(RootObjectName(vars, rootObjectName).value, SearchFilter(vars, filterKeys).value, scope) == []
      ensures Outcome(vars, directory, filterKeys, isRecordset, argument)
           == SetVariable(argument, gridAttribute.value, if isRecordset then Null else List([]))
    {
      assert RowList([]) == List([]);
    }
  }
}
