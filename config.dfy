/**
 * What setConfiguration reads from the element's property set: the key names, the
 * scalar settings, and the indexed tables that its do-while loops walk (counter `pos`
 * from 0 until a key of the current index is missing).
 */
module Config {
  import opened Wrappers
  import opened Text

  /** The configuration after property-file parsing: key to value. */
  type Props = map<string, string>

  const RootObjectKey: string := "search_root_object"
  const ScopeKey: string := "search_scope"
  const FilterAttributePrefix: string := "search_filter_attribute_"
  const FilterValuePrefix: string := "search_filter_value_"
  const FilterFormatKey: string := "search_filter_format"
  const FilterTextKey: string := "search_filter_text"
  const ResultReturnKey: string := "result_return"
  const GridAttributeKey: string := "result_ivyGrid_attribute"
  const ResultAttributePrefix: string := "result_attribute_attribute_"
  const ResultTableAttributePrefix: string := "result_table_attribute_"
  const ResultTableValuePrefix: string := "result_table_value_"
  const IncludeNameKey: string := "result_include_name"
  const IncludeNameGridKey: string := "result_include_name2"
  const NameAttributeKey: string := "result_ivyGrid_name_attribute"
  const SortAttributeKey: string := "result_sort_attribute"
  const SortOrderKey: string := "result_sort_order"

  /** The search scope of SearchControls. */
  datatype Scope = ObjectScope | OneLevel | SubTree

  /** Properties.getProperty(key): null when absent. */
  function Get(props: Props, key: string): Option<string> {
    if key in props then Some(props[key]) else None
  }

  /** Properties.getProperty(key, default). */
  function GetOr(props: Props, key: string, default: string): string {
    if key in props then props[key] else default
  }

  /** The search_scope setting: only the two exact spellings select a scope, all else is OBJECT. */
  function ScopeOf(setting: string): (sc: Scope)
    ensures sc == SubTree <==> setting == "subTree"
    ensures sc == OneLevel <==> setting == "oneLevel"
  {
    if setting == "subTree" then SubTree
    else if setting == "oneLevel" then OneLevel
    else ObjectScope
  }

  /**
   * new Boolean(s).booleanValue(): "true".equalsIgnoreCase(s), so true exactly for a four-letter
   * string whose letters are t, r, u, e in either case ("true", "True", "TRUE", "tRuE").
   */
  function ParseBoolean(s: string): (b: bool)
    ensures b <==> |s| == 4 && forall k :: 0 <= k < 4 ==> Lower(s[k]) == "true"[k]
    ensures s == "true" || s == "True" || s == "TRUE" ==> b
  {
    Folded(s) == "true"
  }

  // ---------------------------------------------------------------------
  // Indexed keys

  /** The key of row `i` of a table: prefix + Integer.toString(i). */
  function IndexedKey(prefix: string, i: nat): string {
    prefix + Decimal(i)
  }

  lemma IndexedKeyInjective(prefix: string, i: nat, j: nat)
    ensures IndexedKey(prefix, i) == IndexedKey(prefix, j) ==> i == j
  {
    if IndexedKey(prefix, i) == IndexedKey(prefix, j) {
      assert Decimal(i) == IndexedKey(prefix, i)[|prefix|..];
      assert Decimal(j) == IndexedKey(prefix, j)[|prefix|..];
      DecimalInjective(i, j);
    }
  }

  /** Row `i` has every key the table's loop asks for. */
  predicate Present(props: Props, prefixes: seq<string>, i: nat) {
    forall p :: p in prefixes ==> IndexedKey(p, i) in props
  }

  /** The distinct keys of rows 0..n-1 under one prefix. */
  function KeysBelow(prefix: string, n: nat): (ks: set<string>)
    ensures |ks| == n
    ensures forall i :: 0 <= i < n ==> IndexedKey(prefix, i) in ks
    ensures forall k :: k in ks ==> exists i :: 0 <= i < n && k == IndexedKey(prefix, i)
  {
    if n == 0 then {}
    else
      var below := KeysBelow(prefix, n - 1);
      assert IndexedKey(prefix, n - 1) !in below by {
        forall i | 0 <= i < n - 1
          ensures IndexedKey(prefix, i) != IndexedKey(prefix, n - 1)
        {
          IndexedKeyInjective(prefix, i, n - 1);
        }
      }
      below + {IndexedKey(prefix, n - 1)}
  }

  /** A finite property set holds at most |props| consecutive rows. */
  lemma RowsBounded(props: Props, prefix: string, n: nat)
    requires forall i :: 0 <= i < n ==> IndexedKey(prefix, i) in props
    ensures n <= |props|
  {
    var ks := KeysBelow(prefix, n);
    assert ks <= props.Keys;
    assert |ks| <= |props.Keys| by {
      SubsetCardinality(ks, props.Keys);
    }
  }

  lemma SubsetCardinality(a: set<string>, b: set<string>)
    requires a <= b
    ensures |a| <= |b|
  {
    if a != {} {
      var x :| x in a;
      SubsetCardinality(a - {x}, b - {x});
    }
  }

  /**
   * The number of consecutive rows, from `pos` on, that have all their keys: a do-while
   * loop over these prefixes stops at index pos + RunFrom(...).
   */
  function RunFrom(props: Props, prefixes: seq<string>, pos: nat): (n: nat)
    requires |prefixes| > 0
    requires forall i :: 0 <= i < pos ==> Present(props, prefixes, i)
    ensures forall i :: pos <= i < pos + n ==> Present(props, prefixes, i)
    ensures !Present(props, prefixes, pos + n)
    decreases |props| - pos
  {
    if Present(props, prefixes, pos) then
      forall i | 0 <= i <= pos
        ensures IndexedKey(prefixes[0], i) in props
      {
        assert Present(props, prefixes, i);
        assert prefixes[0] in prefixes;
      }
      RowsBounded(props, prefixes[0], pos + 1);
      1 + RunFrom(props, prefixes, pos + 1)
    else
      0
  }

  /** The rows a table loop reads: index 0 up to the first row with a missing key. */
  function Run(props: Props, prefixes: seq<string>): (n: nat)
    requires |prefixes| > 0
    ensures forall i :: 0 <= i < n ==> Present(props, prefixes, i)
    ensures !Present(props, prefixes, n)
  {
    RunFrom(props, prefixes, 0)
  }

  // ---------------------------------------------------------------------
  // The three table loops

  /**
   * One of setConfiguration's table loops: the key prefix of the attribute column, that of
   * the value column (the "all" mode loop has none and stores ""), and whether a leading
   * "in." is stripped from values.
   */
  datatype TableLoop = TableLoop(attributePrefix: string, valuePrefix: Option<string>, stripValue: bool)

  /** search_filter_attribute_i / search_filter_value_i (:190-206). */
  const FilterLoop: TableLoop := TableLoop(FilterAttributePrefix, Some(FilterValuePrefix), true)
  /** result_attribute_attribute_i, "all" mode (:216-227). */
  const GridLoop: TableLoop := TableLoop(ResultAttributePrefix, None, false)
  /** result_table_attribute_i / result_table_value_i, first-only mode (:231-245). */
  const OutputLoop: TableLoop := TableLoop(ResultTableAttributePrefix, Some(ResultTableValuePrefix), false)

  /** result_return is "all": every entry found goes into the grid attribute. */
  predicate AllMode(props: Props) {
    Get(props, ResultReturnKey) == Some("all")
  }

  /** The result attribute loop setConfiguration runs for this configuration's mode. */
  function ResultLoop(props: Props): TableLoop {
    if AllMode(props) then GridLoop else OutputLoop
  }

  /** search_filter_format is "filterText": the free-text filter replaces the table. */
  predicate TextFormat(props: Props) {
    Get(props, FilterFormatKey) == Some("filterText")
  }

  /** The include-name key: result_include_name in first-only mode, result_include_name2 once a grid attribute is set. */
  function IncludeNameKeyFor(gridAttribute: Option<string>): string {
    if gridAttribute.None? then IncludeNameKey else IncludeNameGridKey
  }

  /** The keys a row of this loop must have for the loop to go on. */
  function Prefixes(loop: TableLoop): (ps: seq<string>)
    ensures |ps| > 0 && ps[0] == loop.attributePrefix
  {
    match loop.valuePrefix
    case None => [loop.attributePrefix]
    case Some(vp) => [loop.attributePrefix, vp]
  }

  /** All rows before `n` are complete. */
  predicate Complete(props: Props, loop: TableLoop, n: nat) {
    forall i :: 0 <= i < n ==> Present(props, Prefixes(loop), i)
  }

  /** The first incomplete row: where the do-while loop over `pos` stops. */
  function RowCount(props: Props, loop: TableLoop): (n: nat)
    ensures Complete(props, loop, n)
    ensures !Present(props, Prefixes(loop), n)
  {
    Run(props, Prefixes(loop))
  }

  /** A loop over complete rows 0..n-1 that finds row n incomplete has read n rows. */
  lemma RowCountIs(props: Props, loop: TableLoop, n: nat)
    requires Complete(props, loop, n) && !Present(props, Prefixes(loop), n)
    ensures RowCount(props, loop) == n
  {
  }

  function AttributeAt(props: Props, loop: TableLoop, i: nat): string
    requires Present(props, Prefixes(loop), i)
  {
    assert loop.attributePrefix in Prefixes(loop);
    props[IndexedKey(loop.attributePrefix, i)]
  }

  /** The value the loop puts for row `i`. */
  function ValueAt(props: Props, loop: TableLoop, i: nat): string
    requires Present(props, Prefixes(loop), i)
  {
    match loop.valuePrefix
    case None => ""
    case Some(vp) =>
      assert vp in Prefixes(loop);
      var v := props[IndexedKey(vp, i)];
      if loop.stripValue then StripMarker(v) else v
  }

  /** Starting from `table`, the Hashtable puts of rows 0..n-1; rows with an empty attribute are skipped. */
  function Puts(table: map<string, string>, props: Props, loop: TableLoop, n: nat): map<string, string>
    requires Complete(props, loop, n)
  {
    if n == 0 then table
    else
      var prev := Puts(table, props, loop, n - 1);
      var attribute := AttributeAt(props, loop, n - 1);
      if attribute != "" then prev[attribute := ValueAt(props, loop, n - 1)] else prev
  }

  /** The Vector appends of rows 0..n-1: the non-empty attribute names in index order. */
  function AttributeNames(props: Props, loop: TableLoop, n: nat): seq<string>
    requires Complete(props, loop, n)
  {
    if n == 0 then []
    else
      var attribute := AttributeAt(props, loop, n - 1);
      AttributeNames(props, loop, n - 1) + (if attribute != "" then [attribute] else [])
  }

  // ---------------------------------------------------------------------
  // The decoder as a whole

  /** The element's configuration fields. */
  datatype Settings = Settings(
    rootObjectName: Option<string>,
    scope: Scope,
    filterTable: map<string, string>,
    filterText: Option<string>,
    gridAttribute: Option<string>,
    bindings: map<string, string>,
    resultKeys: seq<string>,
    includeName: bool,
    nameAttribute: Option<string>,
    sortBy: Option<string>,
    descending: bool)

  /** The base object with a leading "in." cut, and the search scope (:171-188). */
  function ReadSearch(s: Settings, props: Props): Settings {
    s.(rootObjectName := Some(StripMarker(GetOr(props, RootObjectKey, ""))),
       scope := ScopeOf(GetOr(props, ScopeKey, "")))
  }

  /** The filter table loop (:190-206), added to the table already there. */
  function ReadFilter(s: Settings, props: Props): Settings {
    s.(filterTable := Puts(s.filterTable, props, FilterLoop, RowCount(props, FilterLoop)))
  }

  /** The result part (:208-245): the grid attribute in "all" mode, then that mode's table. */
  function ReadResults(s: Settings, props: Props): Settings {
    var loop := ResultLoop(props);
    var n := RowCount(props, loop);
    s.(gridAttribute := if AllMode(props) then Some(StripMarker(GetOr(props, GridAttributeKey, ""))) else s.gridAttribute,
       bindings := Puts(s.bindings, props, loop, n),
       resultKeys := s.resultKeys + AttributeNames(props, loop, n))
  }

  /** The settings read after the tables (:246-281); the include-name key depends on the mode. */
  function ReadOptions(s: Settings, props: Props): Settings {
    s.(includeName := ParseBoolean(GetOr(props, IncludeNameKeyFor(s.gridAttribute), "false")),
       filterText := if TextFormat(props) then Get(props, FilterTextKey) else s.filterText,
       nameAttribute := Some(StripMarker(GetOr(props, NameAttributeKey, ""))),
       sortBy := Some(GetOr(props, SortAttributeKey, "")),
       descending := Get(props, SortOrderKey) == Some("descending"))
  }

  /** setConfiguration on a parsed property set (:131-311), from the settings before. */
  function Configure(s: Settings, props: Props): Settings {
    ReadOptions(ReadResults(ReadFilter(ReadSearch(s, props), props), props), props)
  }

  /**
   * The scalar settings setConfiguration reads: the scope by its two exact spellings, the base
   * object, grid attribute and name attribute without a leading "in.", the include-name flag from
   * the key of the mode (a grid attribute set by an earlier configuration still counts), the free
   * text only under the "filterText" format, the sort attribute as given, and descending order
   * only for the exact "descending".
   */
  lemma ConfigureScalars(s: Settings, props: Props)
    ensures var c := Configure(s, props);
            (c.scope == SubTree <==> GetOr(props, ScopeKey, "") == "subTree")
            && (c.scope == OneLevel <==> GetOr(props, ScopeKey, "") == "oneLevel")
            && c.rootObjectName == Some(StripMarker(GetOr(props, RootObjectKey, "")))
            && c.gridAttribute == (if AllMode(props) then Some(StripMarker(GetOr(props, GridAttributeKey, ""))) else s.gridAttribute)
            && c.includeName
               == ParseBoolean(GetOr(props, if AllMode(props) || s.gridAttribute.Some? then IncludeNameGridKey else IncludeNameKey, "false"))
            && c.filterText == (if TextFormat(props) then Get(props, FilterTextKey) else s.filterText)
            && c.nameAttribute == Some(StripMarker(GetOr(props, NameAttributeKey, "")))
            && c.sortBy == Some(GetOr(props, SortAttributeKey, ""))
            && (c.descending <==> SortOrderKey in props && props[SortOrderKey] == "descending")
  {
  }

  /** The result keys list exactly the bound attributes. */
  ghost predicate KeysBound(s: Settings) {
    forall k :: k in s.resultKeys <==> k in s.bindings
  }

  /** The names appended are exactly the non-empty attributes of the rows read. */
  lemma {:induction false} AttributeNamesAreRows(props: Props, loop: TableLoop, n: nat, a: string)
    requires Complete(props, loop, n)
    ensures a in AttributeNames(props, loop, n) <==> a != "" && exists i :: 0 <= i < n && AttributeAt(props, loop, i) == a
  {
    if n > 0 {
      AttributeNamesAreRows(props, loop, n - 1, a);
    }
  }

  /** The table gains exactly the appended names as keys: a second decode adds to the first. */
  lemma {:induction false} PutsKeys(table: map<string, string>, props: Props, loop: TableLoop, n: nat)
    requires Complete(props, loop, n)
    ensures Puts(table, props, loop, n).Keys == table.Keys + set a | a in AttributeNames(props, loop, n)
  {
    if n > 0 {
      PutsKeys(table, props, loop, n - 1);
    }
  }

  /** Appending the names and putting them keeps a key list and a table over the same names. */
  lemma KeysStayBound(keys: seq<string>, table: map<string, string>, props: Props, loop: TableLoop)
    requires forall k :: k in keys <==> k in table
    ensures var n := RowCount(props, loop);
            forall k :: k in keys + AttributeNames(props, loop, n) <==> k in Puts(table, props, loop, n)
  {
    PutsKeys(table, props, loop, RowCount(props, loop));
  }

  /** setConfiguration keeps the result keys and the bindings in step. */
  lemma ConfigureKeepsKeysBound(s: Settings, props: Props)
    requires KeysBound(s)
    ensures KeysBound(Configure(s, props))
  {
    KeysStayBound(s.resultKeys, s.bindings, props, ResultLoop(props));
  }

  /**
   * A configuration only adds to what was configured before: every filter and result attribute
   * stays, earlier result keys keep their places, and a grid attribute once set is never cleared.
   */
  lemma ConfigureAccumulates(s: Settings, props: Props)
    ensures s.filterTable.Keys <= Configure(s, props).filterTable.Keys
    ensures s.bindings.Keys <= Configure(s, props).bindings.Keys
    ensures s.resultKeys <= Configure(s, props).resultKeys
    ensures s.gridAttribute.Some? ==> Configure(s, props).gridAttribute.Some?
  {
    PutsKeys(s.filterTable, props, FilterLoop, RowCount(props, FilterLoop));
    PutsKeys(s.bindings, props, ResultLoop(props), RowCount(props, ResultLoop(props)));
  }

  /** The entry of an attribute is the value of the last row that names it. */
  lemma {:induction false} PutsLastRowWins(table: map<string, string>, props: Props, loop: TableLoop, n: nat, i: nat)
    requires Complete(props, loop, n)
    requires i < n && AttributeAt(props, loop, i) != ""
    requires forall j :: i < j < n ==> AttributeAt(props, loop, j) != AttributeAt(props, loop, i)
    ensures AttributeAt(props, loop, i) in Puts(table, props, loop, n)
    ensures Puts(table, props, loop, n)[AttributeAt(props, loop, i)] == ValueAt(props, loop, i)
  {
    if i < n - 1 {
      PutsLastRowWins(table, props, loop, n - 1, i);
    }
  }

  /** A name listed by two rows is appended twice but is one key of the table. */
  lemma {:induction false} RepeatedAttributeAppendedTwice(props: Props, loop: TableLoop, n: nat, i: nat, j: nat)
    requires Complete(props, loop, n)
    requires i < j < n && AttributeAt(props, loop, i) == AttributeAt(props, loop, j) != ""
    ensures multiset(AttributeNames(props, loop, n))[AttributeAt(props, loop, i)] >= 2
  {
    var a := AttributeAt(props, loop, i);
    if j < n - 1 {
      RepeatedAttributeAppendedTwice(props, loop, n - 1, i, j);
    } else {
      AttributeNamesAreRows(props, loop, n - 1, a);
      assert a in AttributeNames(props, loop, n - 1);
      assert AttributeNames(props, loop, n) == AttributeNames(props, loop, n - 1) + [a];
    }
  }
}
