/**
 * What one directory entry becomes: in "all" mode a row of cells (appendSearchResultToRow,
 * addJndiName, appendAttributeEntry), in first-only mode writes into the output variables;
 * and setNoResult, which clears the first-only outputs when nothing matched.
 */
module Rows {
  import opened Wrappers
  import opened Text
  import opened Composite

  /** A search result: its name relative to the base object, and its attributes (name to values), if any. */
  datatype Entry = Entry(name: Option<string>, attributes: Option<map<string, seq<string>>>)

  /** A cell of a result row: null, one value, or the List<String> of a multi-valued attribute. */
  datatype Cell = NullCell | Text(s: string) | TextList(values: seq<string>)

  /** The host value a cell stands for. */
  function CellData(c: Cell): Data {
    match c
    case NullCell => Null
    case Text(s) => Str(s)
    case TextList(vs) => Strings(vs)
  }

  function OptionData(s: Option<string>): Data {
    match s
    case None => Null
    case Some(t) => Str(t)
  }

  /** getJndiAttribute: the attribute of that name; null when absent or when the entry has no attributes. */
  function AttributeOf(entry: Entry, key: string): Option<seq<string>> {
    match entry.attributes
    case None => None
    case Some(attrs) => if key in attrs then Some(attrs[key]) else None
  }

  // ---------------------------------------------------------------------
  // The entry name (addJndiName)

  /** Slashes escaped, then one pair of surrounding double quotes removed; substring(1, 0) throws on a lone quote. */
  function PreparedName(name: Option<string>): Result<Option<string>> {
    match name
    case None => Ok(None)
    case Some(n) =>
      var e := EscapeSlashes(n);
      if StartsWith(e, "\"") && EndsWith(e, "\"") then
        if |e| < 2 then Err(IndexOutOfBounds) else Ok(Some(e[1..|e| - 1]))
      else
        Ok(Some(e))
  }

  /** The name alone when the trimmed base object is empty, else name + "," + base (null prints as "null"). */
  function EntryName(name: Option<string>, base: string): Result<Option<string>> {
    var prepared :- PreparedName(name);
    if Trim(base) == "" then Ok(prepared)
    else Ok(Some(Concatenable(prepared) + "," + base))
  }

  lemma {:induction false} EscapeAppend(a: string, b: string)
    ensures EscapeSlashes(a + b) == EscapeSlashes(a) + EscapeSlashes(b)
  {
    if a != [] {
      assert (a + b)[1..] == a[1..] + b;
      EscapeAppend(a[1..], b);
    } else {
      assert a + b == b;
    }
  }

  /** The escaped name starts (ends) with a quote exactly when the name does. */
  lemma EscapeEnds(n: string)
    ensures |EscapeSlashes(n)| > 0 <==> |n| > 0
    ensures |n| > 0 ==> EscapeSlashes(n)[0] == (if n[0] == '/' then '\\' else n[0])
    ensures |n| > 0 ==> EscapeSlashes(n)[|EscapeSlashes(n)| - 1] == n[|n| - 1]
  {
    if |n| > 0 {
      var init := n[..|n| - 1];
      var last := n[|n| - 1];
      assert n == init + [last];
      EscapeAppend(init, [last]);
      assert EscapeSlashes([last]) == (if last == '/' then "\\/" else [last]) + EscapeSlashes([]);
    }
  }

  /** Under an empty base, an unquoted name is recovered from the entry name by unescaping. */
  lemma NameRoundTrip(n: string, base: string)
    requires Trim(base) == ""
    requires n == [] || (n[0] != '"' && n[|n| - 1] != '"')
    ensures EntryName(Some(n), base).Ok?
    ensures EntryName(Some(n), base).value.Some?
    ensures UnescapeSlashes(EntryName(Some(n), base).value.value) == n
  {
    var e := EscapeSlashes(n);
    EscapeEnds(n);
    assert !StartsWith(e, "\"") by {
      if |e| > 0 {
        assert e[..1][0] == e[0];
      }
    }
    EscapeRoundTrip(n);
  }

  /** Under an empty base, a name in double quotes loses them: unescaping gives the text between them. */
  lemma QuotedNameRoundTrip(m: string, base: string)
    requires Trim(base) == ""
    ensures EntryName(Some("\"" + m + "\""), base) == Ok(Some(EscapeSlashes(m)))
    ensures UnescapeSlashes(EscapeSlashes(m)) == m
  {
    var q: string := "\"";
    var em := EscapeSlashes(m);
    assert EscapeSlashes(q) == q by {
      assert EscapeSlashes(q) == q + EscapeSlashes([]);
    }
    EscapeAppend(q, m);
    EscapeAppend(q + m, q);
    var e := EscapeSlashes(q + m + q);
    assert e == q + em + q;
    assert e[..1] == q && e[|e| - 1..] == q;
    assert e[1..|e| - 1] == em;
    assert PreparedName(Some(q + m + q)) == Ok(Some(em));
    EscapeRoundTrip(m);
  }

  /** A lone double quote as entry name makes substring(1, 0) throw. */
  lemma LoneQuoteName(base: string)
    ensures EntryName(Some("\""), base) == Err(IndexOutOfBounds)
  {
    assert EscapeSlashes("\"") == "\"" + EscapeSlashes([]);
  }

  /** Under a non-blank base the name is qualified by it. */
  lemma QualifiedName(name: Option<string>, base: string)
    requires Trim(base) != "" && PreparedName(name).Ok?
    ensures EntryName(name, base) == Ok(Some(Concatenable(PreparedName(name).value) + "," + base))
    ensures EndsWith(EntryName(name, base).value.value, "," + base)
  {
    var r := Concatenable(PreparedName(name).value) + "," + base;
    assert r == Concatenable(PreparedName(name).value) + ("," + base);
    assert r[|r| - |"," + base|..] == "," + base;
  }

  // ---------------------------------------------------------------------
  // All mode: the row of one entry

  /** appendAttributeEntry in all mode: "" for an absent attribute, nothing for one without values. */
  function GridCells(attribute: Option<seq<string>>): seq<Cell> {
    match attribute
    case None => [Text("")]
    case Some(vs) =>
      if |vs| == 1 then [Text(vs[0])]
      else if |vs| > 1 then [TextList(vs)]
      else []
  }

  function AttributeCells(entry: Entry, keys: seq<string>): seq<Cell>
    decreases |keys|
  {
    if keys == [] then [] else GridCells(AttributeOf(entry, keys[0])) + AttributeCells(entry, keys[1..])
  }

  /** The cells of the keys from `i` on: those of key `i`, then those of the keys after it. */
  lemma AttributeCellsStep(entry: Entry, keys: seq<string>, i: nat)
    requires i < |keys|
    ensures AttributeCells(entry, keys[i..]) == GridCells(AttributeOf(entry, keys[i])) + AttributeCells(entry, keys[i + 1..])
  {
    assert keys[i..][1..] == keys[i + 1..];
  }

  /** The row appendSearchResultToRow builds: the entry name if included, then one cell per result key. */
  function BuildRow(includeName: bool, keys: seq<string>, base: string, entry: Entry): Result<seq<Cell>> {
    if includeName then
      var name :- EntryName(entry.name, base);
      Ok([match name case None => NullCell case Some(n) => Text(n)] + AttributeCells(entry, keys))
    else
      Ok(AttributeCells(entry, keys))
  }

  /** The attribute is present but has no value: it contributes no cell. */
  predicate Empty(entry: Entry, key: string) {
    var a := AttributeOf(entry, key);
    a.Some? && |a.value| == 0
  }

  /** The cell a key contributes when it contributes one. */
  function CellFor(entry: Entry, key: string): Cell {
    match AttributeOf(entry, key)
    case None => Text("")
    case Some(vs) => if |vs| == 1 then Text(vs[0]) else TextList(vs)
  }

  /** With no empty attribute, cell i of the attribute part belongs to key i. */
  lemma {:induction false} CellsAligned(entry: Entry, keys: seq<string>)
    requires forall k :: k in keys ==> !Empty(entry, k)
    ensures |AttributeCells(entry, keys)| == |keys|
    ensures forall i :: 0 <= i < |keys| ==> AttributeCells(entry, keys)[i] == CellFor(entry, keys[i])
    decreases |keys|
  {
    if keys != [] {
      assert keys[0] in keys;
      assert forall k :: k in keys[1..] ==> k in keys;
      CellsAligned(entry, keys[1..]);
      var rest := AttributeCells(entry, keys[1..]);
      forall i | 0 <= i < |keys|
        ensures AttributeCells(entry, keys)[i] == CellFor(entry, keys[i])
      {
        if i > 0 {
          assert AttributeCells(entry, keys)[i] == rest[i - 1];
          assert keys[1..][i - 1] == keys[i];
        }
      }
    }
  }

  /** Every key without values shortens the row by one cell. */
  lemma {:induction false} CellsShortened(entry: Entry, keys: seq<string>)
    ensures |AttributeCells(entry, keys)| == |keys| - |EmptyKeys(entry, keys)|
    decreases |keys|
  {
    if keys != [] {
      CellsShortened(entry, keys[1..]);
    }
  }

  /** The keys whose attribute is present without values. */
  function EmptyKeys(entry: Entry, keys: seq<string>): seq<string>
    decreases |keys|
  {
    if keys == [] then []
    else (if Empty(entry, keys[0]) then [keys[0]] else []) + EmptyKeys(entry, keys[1..])
  }

  lemma {:induction false} EmptyKeysListed(entry: Entry, keys: seq<string>, k: string)
    ensures k in EmptyKeys(entry, keys) <==> k in keys && Empty(entry, k)
    decreases |keys|
  {
    if keys != [] {
      EmptyKeysListed(entry, keys[1..], k);
      assert k in keys <==> k == keys[0] || k in keys[1..];
    }
  }

  /** A present attribute without values makes the row shorter than its header. */
  lemma RowShorterThanHeader(includeName: bool, keys: seq<string>, base: string, entry: Entry, k: string)
    requires k in keys && Empty(entry, k)
    requires BuildRow(includeName, keys, base, entry).Ok?
    ensures |BuildRow(includeName, keys, base, entry).value| < (if includeName then 1 else 0) + |keys|
  {
    CellsShortened(entry, keys);
    EmptyKeysListed(entry, keys, k);
  }

  /** With no attribute without values the row has one cell per header, the name first if included. */
  lemma RowMatchesHeader(includeName: bool, keys: seq<string>, base: string, entry: Entry)
    requires forall k :: k in keys ==> !Empty(entry, k)
    requires BuildRow(includeName, keys, base, entry).Ok?
    ensures var row := BuildRow(includeName, keys, base, entry).value;
            var offset := if includeName then 1 else 0;
            |row| == offset + |keys|
            && (forall i :: 0 <= i < |keys| ==> row[offset + i] == CellFor(entry, keys[i]))
            && (includeName ==> row[0] == match EntryName(entry.name, base).value
                                         case None => NullCell case Some(n) => Text(n))
  {
    CellsAligned(entry, keys);
  }

  /** The rows of all entries in search order; the first entry whose name throws ends the search loop. */
  function GridRows(includeName: bool, keys: seq<string>, base: string, entries: seq<Entry>): (r: Result<seq<seq<Cell>>>)
    ensures r.Ok? ==> |r.value| == |entries|
    decreases |entries|
  {
    if entries == [] then Ok([])
    else
      var init :- GridRows(includeName, keys, base, entries[..|entries| - 1]);
      var row :- BuildRow(includeName, keys, base, entries[|entries| - 1]);
      Ok(init + [row])
  }

  /** Once an entry throws, so does the whole loop, with the same exception. */
  lemma {:induction false} GridRowsFirstError(includeName: bool, keys: seq<string>, base: string, entries: seq<Entry>, i: nat)
    requires i <= |entries| && GridRows(includeName, keys, base, entries[..i]).Err?
    ensures GridRows(includeName, keys, base, entries) == GridRows(includeName, keys, base, entries[..i])
    decreases |entries|
  {
    if i < |entries| {
      var init := entries[..|entries| - 1];
      assert init[..i] == entries[..i];
      GridRowsFirstError(includeName, keys, base, init, i);
    } else {
      assert entries[..i] == entries;
    }
  }

  /** Row i of a successful loop is the row of entry i. */
  lemma {:induction false} GridRowsAreEntryRows(includeName: bool, keys: seq<string>, base: string, entries: seq<Entry>, i: nat)
    requires GridRows(includeName, keys, base, entries).Ok? && i < |entries|
    ensures BuildRow(includeName, keys, base, entries[i]).Ok?
    ensures GridRows(includeName, keys, base, entries).value[i] == BuildRow(includeName, keys, base, entries[i]).value
    decreases |entries|
  {
    var init := entries[..|entries| - 1];
    if i < |entries| - 1 {
      assert init[i] == entries[i];
      GridRowsAreEntryRows(includeName, keys, base, init, i);
    }
  }

  // ---------------------------------------------------------------------
  // First-only mode: writes of the first entry

  /** appendAttributeEntry in first-only mode: the value written for one attribute, if any. */
  function OutputValue(attribute: Option<seq<string>>): Option<Data> {
    match attribute
    case None => None
    case Some(vs) =>
      if |vs| == 1 then Some(Str(vs[0]))
      else if |vs| > 1 then Some(Enumeration(vs))
      else None
  }

  /** setVariable(bindings.get(key), value): a key without binding passes null as the path. */
  function WriteBound(fields: Fields, bindings: map<string, string>, key: string, value: Data): Result<Fields> {
    if key in bindings then SetVariable(fields, bindings[key], value) else Err(NullPointer)
  }

  /** The writes for the result keys, in key order. */
  function WriteAttributes(fields: Fields, keys: seq<string>, bindings: map<string, string>, entry: Entry): Result<Fields>
    decreases |keys|
  {
    if keys == [] then Ok(fields)
    else
      var next :-
        match OutputValue(AttributeOf(entry, keys[0]))
        case None => Ok(fields)
        case Some(v) => WriteBound(fields, bindings, keys[0], v);
      WriteAttributes(next, keys[1..], bindings, entry)
  }

  /** What the first entry writes: its name into the name attribute if included, then its attributes. */
  function WriteFirstEntry(fields: Fields, includeName: bool, nameAttribute: Option<string>, keys: seq<string>,
                           bindings: map<string, string>, base: string, entry: Entry): Result<Fields>
  {
    var named :-
      if includeName then
        var name :- EntryName(entry.name, base);
        match nameAttribute
        case None => Err(NullPointer)
        case Some(target) => SetVariable(fields, target, OptionData(name))
      else
        Ok(fields);
    WriteAttributes(named, keys, bindings, entry)
  }

  /**
   * The outputs of first-only mode: two keys bound to one output are the same key (a repeated
   * result attribute), and no output path leads into another ("user.name" and "user.mail" may
   * both be bound, "user" and "user.name" may not).
   */
  predicate SeparateTargets(keys: seq<string>, bindings: map<string, string>) {
    (forall k :: k in keys ==> k in bindings)
    && forall a, b :: 0 <= a < |keys| && 0 <= b < |keys| ==>
         keys[a] == keys[b] || Apart(Path(bindings[keys[a]]), Path(bindings[keys[b]]))
  }

  /** Writes for keys bound apart from a path leave it alone. */
  lemma {:induction false} WriteAttributesLeaves(fields: Fields, keys: seq<string>, bindings: map<string, string>,
                                                 entry: Entry, path: string)
    requires forall k :: k in keys ==> k in bindings && Apart(Path(bindings[k]), Path(path))
    requires WriteAttributes(fields, keys, bindings, entry).Ok?
    ensures Lookup(WriteAttributes(fields, keys, bindings, entry).value, path) == Lookup(fields, path)
    decreases |keys|
  {
    if keys != [] {
      assert keys[0] in keys;
      assert forall k :: k in keys[1..] ==> k in keys;
      var next := match OutputValue(AttributeOf(entry, keys[0]))
        case None => Ok(fields)
        case Some(v) => WriteBound(fields, bindings, keys[0], v);
      if OutputValue(AttributeOf(entry, keys[0])).Some? {
        WriteLeavesOtherPaths(fields, bindings[keys[0]], OutputValue(AttributeOf(entry, keys[0])).value, path);
      }
      WriteAttributesLeaves(next.value, keys[1..], bindings, entry, path);
    }
  }

  /**
   * Each output bound to a key with a value reads back that value (a repeated key writes it
   * twice); the outputs of keys without a value keep theirs.
   */
  lemma {:induction false} WriteAttributesReadBack(fields: Fields, keys: seq<string>, bindings: map<string, string>,
                                                   entry: Entry, i: nat)
    requires SeparateTargets(keys, bindings) && i < |keys|
    requires WriteAttributes(fields, keys, bindings, entry).Ok?
    ensures Lookup(WriteAttributes(fields, keys, bindings, entry).value, bindings[keys[i]])
         == match OutputValue(AttributeOf(entry, keys[i]))
            case Some(v) => Some(v)
            case None => Lookup(fields, bindings[keys[i]])
    decreases |keys|
  {
    assert keys[0] in keys;
    var next := match OutputValue(AttributeOf(entry, keys[0]))
      case None => Ok(fields)
      case Some(v) => WriteBound(fields, bindings, keys[0], v);
    var rest := keys[1..];
    assert SeparateTargets(rest, bindings) by {
      assert forall k :: k in rest ==> k in keys;
      forall a, b | 0 <= a < |rest| && 0 <= b < |rest|
        ensures rest[a] == rest[b] || Apart(Path(bindings[rest[a]]), Path(bindings[rest[b]]))
      {
        assert rest[a] == keys[a + 1] && rest[b] == keys[b + 1];
      }
    }
    var path := bindings[keys[i]];
    if i == 0 {
      if exists j :: 0 <= j < |rest| && rest[j] == keys[0] {
        var j :| 0 <= j < |rest| && rest[j] == keys[0];
        WriteAttributesReadBack(next.value, rest, bindings, entry, j);
      } else {
        forall k | k in rest
          ensures k in bindings && Apart(Path(bindings[k]), Path(path))
        {
          var b :| 0 <= b < |rest| && rest[b] == k;
          assert keys[b + 1] == k;
        }
        WriteAttributesLeaves(next.value, rest, bindings, entry, path);
        match OutputValue(AttributeOf(entry, keys[0]))
        case None =>
        case Some(v) =>
          ReadAfterWrite(fields, path, v);
      }
    } else {
      assert rest[i - 1] == keys[i];
      WriteAttributesReadBack(next.value, rest, bindings, entry, i - 1);
      match OutputValue(AttributeOf(entry, keys[0]))
      case None =>
      case Some(v) =>
        if keys[0] != keys[i] {
          WriteLeavesOtherPaths(fields, bindings[keys[0]], v, path);
        }
    }
  }

  // ---------------------------------------------------------------------
  // setNoResult

  /** setNoResult's writes of null for the first keys, stopping at the first that throws. */
  function Cleared(fields: Fields, keys: seq<string>, bindings: map<string, string>): Result<Fields>
    decreases |keys|
  {
    if keys == [] then Ok(fields)
    else
      var prev :- Cleared(fields, keys[..|keys| - 1], bindings);
      WriteBound(prev, bindings, keys[|keys| - 1], Null)
  }

  /** setNoResult in first-only mode: every bound output set to null in key order, then the name output. */
  function NoResult(fields: Fields, keys: seq<string>, bindings: map<string, string>, includeName: bool,
                    nameAttribute: Option<string>): Result<Fields>
  {
    var cleared :- Cleared(fields, keys, bindings);
    if !includeName then Ok(cleared)
    else
      match nameAttribute
      case None => Err(NullPointer)
      case Some(target) => SetVariable(cleared, target, Null)
  }

  /** A failed write ends the loop: the outcome is that of the first failing key. */
  lemma {:induction false} ClearedFirstError(fields: Fields, keys: seq<string>, bindings: map<string, string>, i: nat)
    requires i <= |keys| && Cleared(fields, keys[..i], bindings).Err?
    ensures Cleared(fields, keys, bindings) == Cleared(fields, keys[..i], bindings)
    decreases |keys|
  {
    if i < |keys| {
      var init := keys[..|keys| - 1];
      assert init[..i] == keys[..i];
      ClearedFirstError(fields, init, bindings, i);
    } else {
      assert keys[..i] == keys;
    }
  }

  /** Writes of null for keys bound apart from a path leave it alone. */
  lemma {:induction false} ClearedLeaves(fields: Fields, keys: seq<string>, bindings: map<string, string>, path: string)
    requires forall k :: k in keys ==> k in bindings && Apart(Path(bindings[k]), Path(path))
    requires Cleared(fields, keys, bindings).Ok?
    ensures Lookup(Cleared(fields, keys, bindings).value, path) == Lookup(fields, path)
    decreases |keys|
  {
    if keys != [] {
      var init := keys[..|keys| - 1];
      assert forall k :: k in init ==> k in keys;
      assert keys[|keys| - 1] in keys;
      ClearedLeaves(fields, init, bindings, path);
      WriteLeavesOtherPaths(Cleared(fields, init, bindings).value, bindings[keys[|keys| - 1]], Null, path);
    }
  }

  /** Two output paths are one output, or neither leads into the other. */
  predicate Unnested(p: string, q: string) {
    Path(p) == Path(q) || Apart(Path(p), Path(q))
  }

  /** The outputs setNoResult clears: no output path leads into another; keys may share an output. */
  predicate UnnestedTargets(keys: seq<string>, bindings: map<string, string>) {
    (forall k :: k in keys ==> k in bindings)
    && forall a, b :: 0 <= a < |keys| && 0 <= b < |keys| ==> Unnested(bindings[keys[a]], bindings[keys[b]])
  }

  /** After setNoResult's loop, every output bound to a result key reads back null. */
  lemma {:induction false} ClearedReadsNull(fields: Fields, keys: seq<string>, bindings: map<string, string>, i: nat)
    requires UnnestedTargets(keys, bindings) && i < |keys|
    requires Cleared(fields, keys, bindings).Ok?
    ensures Lookup(Cleared(fields, keys, bindings).value, bindings[keys[i]]) == Some(Null)
    decreases |keys|
  {
    var n := |keys| - 1;
    var init := keys[..n];
    var prev := Cleared(fields, init, bindings).value;
    assert keys[n] in keys;
    if i == n {
      ReadAfterWrite(prev, bindings[keys[n]], Null);
    } else {
      assert UnnestedTargets(init, bindings) by {
        assert forall k :: k in init ==> k in keys;
        forall a, b | 0 <= a < |init| && 0 <= b < |init|
          ensures Unnested(bindings[init[a]], bindings[init[b]])
        {
          assert init[a] == keys[a] && init[b] == keys[b];
        }
      }
      assert init[i] == keys[i];
      ClearedReadsNull(fields, init, bindings, i);
      assert Unnested(bindings[keys[n]], bindings[keys[i]]);
      if Path(bindings[keys[n]]) == Path(bindings[keys[i]]) {
        ReadSamePath(prev, bindings[keys[n]], Null, bindings[keys[i]]);
      } else {
        WriteLeavesOtherPaths(prev, bindings[keys[n]], Null, bindings[keys[i]]);
      }
    }
  }

  /**
   * After setNoResult in first-only mode every output bound to a result key reads back null,
   * and so does the name output when the name is included.
   */
  lemma NoResultReadsNull(fields: Fields, keys: seq<string>, bindings: map<string, string>, includeName: bool,
                          nameAttribute: Option<string>)
    requires UnnestedTargets(keys, bindings)
    requires includeName && nameAttribute.Some? ==> forall k :: k in keys ==> Unnested(bindings[k], nameAttribute.value)
    requires NoResult(fields, keys, bindings, includeName, nameAttribute).Ok?
    ensures forall i :: 0 <= i < |keys| ==>
              Lookup(NoResult(fields, keys, bindings, includeName, nameAttribute).value, bindings[keys[i]]) == Some(Null)
    ensures includeName ==>
              nameAttribute.Some?
              && Lookup(NoResult(fields, keys, bindings, includeName, nameAttribute).value, nameAttribute.value) == Some(Null)
  {
    var cleared := Cleared(fields, keys, bindings).value;
    forall i | 0 <= i < |keys|
      ensures Lookup(NoResult(fields, keys, bindings, includeName, nameAttribute).value, bindings[keys[i]]) == Some(Null)
    {
      ClearedReadsNull(fields, keys, bindings, i);
      if includeName {
        var target := nameAttribute.value;
        assert keys[i] in keys;
        if Path(bindings[keys[i]]) == Path(target) {
          ReadSamePath(cleared, target, Null, bindings[keys[i]]);
        } else {
          ApartSymmetric(Path(bindings[keys[i]]), Path(target));
          WriteLeavesOtherPaths(cleared, target, Null, bindings[keys[i]]);
        }
      }
    }
    if includeName {
      ReadAfterWrite(cleared, nameAttribute.value, Null);
    }
  }
}
