/**
 * buildSearchFilter: the filter string of one invocation, either by substituting the
 * "in.<name>)" markers of the free-text filter or by conjoining the attribute/value table.
 */
module Filter {
  import opened Wrappers
  import opened Text
  import opened Script

  /** What a marker's name is replaced by: the resolved value's string, or nothing for null. */
  function Substitution(vars: Variables, name: string): string {
    match vars(name)
    case None => ""
    case Some(v) => Show(v)
  }

  /** Prefixes `p` to a successful expansion. */
  function Prepend(p: string, r: Result<string>): Result<string> {
    match r
    case Ok(s) => Ok(p + s)
    case Err(e) => Err(e)
  }

  lemma PrependNothing(r: Result<string>)
    ensures Prepend("", r) == r
  {
    if r.Ok? {
      assert "" + r.value == r.value;
    }
  }

  lemma PrependPrepend(p: string, q: string, r: Result<string>)
    ensures Prepend(p, Prepend(q, r)) == Prepend(p + q, r)
  {
    if r.Ok? {
      assert p + (q + r.value) == (p + q) + r.value;
    }
  }

  /** "in." does not contain ")": a closing parenthesis lies beyond the marker. */
  lemma CloseAfterMarker(s: string, at: nat, close: nat)
    requires OccursAt(s, Marker, at) && at <= close < |s| && s[close] == ')'
    ensures close >= at + 3
  {
    assert s[at..at + 3][0] == s[at] && s[at..at + 3][1] == s[at + 1] && s[at..at + 3][2] == s[at + 2];
  }

  /**
   * The free-text expansion of `s` from index `from` on: the text up to the next "in." is
   * copied, the name up to the next ")" is substituted, and expansion resumes at that ")".
   * A marker with no later ")" makes substring(at + 3, -1) throw.
   */
  function Expand(vars: Variables, s: string, from: nat): Result<string>
    requires from <= |s|
    decreases |s| - from
  {
    match FindFrom(s, Marker, from)
    case None => Ok(s[from..])
    case Some(at) =>
      match FindChar(s, ')', at)
      case None => Err(IndexOutOfBounds)
      case Some(close) =>
        CloseAfterMarker(s, at, close);
        Prepend(s[from..at] + Substitution(vars, s[at + 3..close]), Expand(vars, s, close))
  }

  /** The loop of buildSearchFilter's free-text branch (:404-424), over indices `at` and `to`. */
  method ExpandFilterText(vars: Variables, text: string) returns (r: Result<string>)
    ensures r == Expand(vars, text, 0)
  {
    var sb := "";
    var to := 0;
    var at := IndexOf(text, Marker, 0);
    PrependNothing(Expand(vars, text, 0));
    while at >= 0
      invariant 0 <= to <= |text|
      invariant at == IndexOf(text, Marker, to)
      invariant Expand(vars, text, 0) == Prepend(sb, Expand(vars, text, to))
      decreases |text| - to
    {
      var copied := text[to..at];
      var close := IndexOfChar(text, ')', at);
      if close < 0 {
        return Err(IndexOutOfBounds);
      }
      CloseAfterMarker(text, at, close);
      var substituted := Substitution(vars, text[at + 3..close]);
      ExpandAt(vars, text, to, at, close);
      PrependPrepend(sb, copied + substituted, Expand(vars, text, close));
      sb := sb + (copied + substituted);
      to := close;
      at := IndexOf(text, Marker, to);
    }
    sb := sb + text[to..];
    r := Ok(sb);
  }

  // ---------------------------------------------------------------------
  // What the expansion does to a template built from literal text and markers

  /** "in." + name followed by text that starts with the closing ")". */
  datatype Reference = Reference(name: string, after: string)

  predicate NoMarker(s: string) {
    forall j :: 0 <= j <= |s| ==> !OccursAt(s, Marker, j)
  }

  predicate NoClose(s: string) {
    forall k :: 0 <= k < |s| ==> s[k] != ')'
  }

  predicate WellFormedReference(m: Reference) {
    NoClose(m.name) && |m.after| > 0 && m.after[0] == ')' && NoMarker(m.after)
  }

  function Template(lead: string, refs: seq<Reference>): string
    decreases |refs|
  {
    if refs == [] then lead
    else lead + Marker + refs[0].name + Template(refs[0].after, refs[1..])
  }

  function Substituted(vars: Variables, lead: string, refs: seq<Reference>): string
    decreases |refs|
  {
    if refs == [] then lead
    else lead + Substitution(vars, refs[0].name) + Substituted(vars, refs[0].after, refs[1..])
  }

  /** The first marker `m` from `pre` on in `pre + lead + m + rest` follows `lead` when `lead` has none. */
  lemma FirstMarkerAfter(pre: string, lead: string, m: string, rest: string)
    requires m == Marker && NoMarker(lead)
    ensures FindFrom(pre + lead + m + rest, m, |pre|) == Some(|pre| + |lead|)
  {
    var s := pre + lead + m + rest;
    var at := |pre| + |lead|;
    assert m[0] == 'i' && m[1] == 'n' && m[2] == '.';
    assert s[at..at + 3] == m;
    forall j | |pre| <= j < at
      ensures !OccursAt(s, m, j)
    {
      if j + 3 <= at {
        assert s[j..j + 3] == lead[j - |pre|..j - |pre| + 3];
        assert !OccursAt(lead, Marker, j - |pre|);
      } else {
        assert s[j + 2] == (if j + 2 == at then m[0] else m[1]);
        assert j + 3 <= |s| ==> s[j..j + 3][2] == s[j + 2];
      }
    }
    FindFromExact(s, m, |pre|, at);
  }

  /**
   * The first ")" from `pre` on in `pre + m + name + rest`, with `m` the marker, starts `rest`
   * when `name` has none. (The marker is a parameter equal to "in." so that the solver does
   * not take the literal apart inside the concatenation.)
   */
  lemma FirstCloseAfter(pre: string, m: string, name: string, rest: string)
    requires m == Marker && NoClose(name)
    requires |rest| > 0 && rest[0] == ')'
    ensures FindChar(pre + m + name + rest, ')', |pre|) == Some(|pre| + 3 + |name|)
  {
    var s := pre + m + name + rest;
    var close := |pre| + 3 + |name|;
    forall j | |pre| <= j < close
      ensures s[j] != ')'
    {
      if j < |pre| + 3 {
        assert s[j] == m[j - |pre|];
      } else {
        assert s[j] == name[j - |pre| - 3];
      }
    }
    FindCharExact(s, ')', |pre|, close);
  }

  /** Expand unfolded once at a known marker and closing parenthesis. */
  lemma ExpandAt(vars: Variables, s: string, from: nat, at: nat, close: nat)
    requires from <= at && at + 3 <= close <= |s|
    requires FindFrom(s, Marker, from) == Some(at) && FindChar(s, ')', at) == Some(close)
    ensures Expand(vars, s, from)
         == Prepend(s[from..at] + Substitution(vars, s[at + 3..close]), Expand(vars, s, close))
  {
  }

  /** One step of the expansion: literal text, the marker `m`, a name and the rest from ")" on. */
  lemma ExpandStep(vars: Variables, pre: string, lead: string, m: string, name: string, rest: string)
    requires m == Marker && NoMarker(lead) && NoClose(name)
    requires |rest| > 0 && rest[0] == ')'
    ensures Expand(vars, pre + lead + m + name + rest, |pre|)
         == Prepend(lead + Substitution(vars, name),
                    Expand(vars, pre + lead + m + name + rest, |pre + lead + m + name|))
  {
    var s := pre + lead + m + name + rest;
    var at := |pre| + |lead|;
    var close := at + 3 + |name|;
    StepPositions(pre, lead, m, name, rest);
    StepParts(pre, lead, m, name, rest);
    ExpandAt(vars, s, |pre|, at, close);
    assert |pre + lead + m + name| == close;
  }

  /** Where the marker and the ")" of one step are. */
  lemma StepPositions(pre: string, lead: string, m: string, name: string, rest: string)
    requires m == Marker && NoMarker(lead) && NoClose(name)
    requires |rest| > 0 && rest[0] == ')'
    ensures var s := pre + lead + m + name + rest;
            var at := |pre| + |lead|;
            FindFrom(s, m, |pre|) == Some(at) && FindChar(s, ')', at) == Some(at + 3 + |name|)
  {
    FirstMarkerAfter(pre, lead, m, name + rest);
    assert pre + lead + m + (name + rest) == pre + lead + m + name + rest;
    FirstCloseAfter(pre + lead, m, name, rest);
  }

  /** The literal text and the name of one step, cut back out of it. */
  lemma StepParts(pre: string, lead: string, m: string, name: string, rest: string)
    requires |m| == 3
    ensures var s := pre + lead + m + name + rest;
            var at := |pre| + |lead|;
            s[|pre|..at] == lead && s[at + 3..at + 3 + |name|] == name
  {
    assert pre + lead + m + name + rest == pre + lead + (m + name + rest);
    Middle(pre, lead, m + name + rest);
    Middle(pre + lead + m, name, rest);
  }

  lemma Middle(a: string, b: string, c: string)
    ensures (a + b + c)[|a|..|a| + |b|] == b
  {
  }

  lemma ExpandAtEnd(vars: Variables, pre: string, lead: string)
    requires NoMarker(lead)
    ensures Expand(vars, pre + lead, |pre|) == Ok(lead)
  {
    var s := pre + lead;
    forall j | |pre| <= j <= |s|
      ensures !OccursAt(s, Marker, j)
    {
      if j + 3 <= |s| {
        assert s[j..j + 3] == lead[j - |pre|..j - |pre| + 3];
        assert !OccursAt(lead, Marker, j - |pre|);
      }
    }
    assert s[|pre|..] == lead;
  }

  /** The expansion of a template that follows the already expanded text `pre`. */
  lemma {:induction false} ExpandTemplateFrom(vars: Variables, pre: string, lead: string, refs: seq<Reference>)
    requires NoMarker(lead)
    requires forall i :: 0 <= i < |refs| ==> WellFormedReference(refs[i])
    ensures Expand(vars, pre + Template(lead, refs), |pre|) == Ok(Substituted(vars, lead, refs))
    decreases |refs|
  {
    if refs == [] {
      ExpandAtEnd(vars, pre, lead);
    } else {
      var m := refs[0];
      assert WellFormedReference(m);
      var rest := Template(m.after, refs[1..]);
      TemplateHasLead(m.after, refs[1..]);
      var s := pre + lead + Marker + m.name + rest;
      assert pre + Template(lead, refs) == s;
      ExpandStep(vars, pre, lead, Marker, m.name, rest);
      var pre' := pre + lead + Marker + m.name;
      assert s == pre' + rest;
      ExpandTemplateFrom(vars, pre', m.after, refs[1..]);
    }
  }

  lemma TemplateHasLead(lead: string, refs: seq<Reference>)
    ensures |Template(lead, refs)| >= |lead| && Template(lead, refs)[..|lead|] == lead
  {
  }

  /**
   * Free-text expansion: literal text is copied, each "in.NAME" is replaced by the resolved
   * value's string (nothing for null) and the closing ")" is kept.
   */
  lemma ExpandTemplate(vars: Variables, lead: string, refs: seq<Reference>)
    requires NoMarker(lead)
    requires forall i :: 0 <= i < |refs| ==> WellFormedReference(refs[i])
    ensures Expand(vars, Template(lead, refs), 0) == Ok(Substituted(vars, lead, refs))
  {
    ExpandTemplateFrom(vars, "", lead, refs);
    assert "" + Template(lead, refs) == Template(lead, refs);
  }

  /** A filter text without markers is used unchanged. */
  lemma ExpandWithoutMarker(vars: Variables, s: string)
    requires NoMarker(s)
    ensures Expand(vars, s, 0) == Ok(s)
  {
    ExpandAtEnd(vars, "", s);
    assert "" + s == s;
  }

  /** A marker with no later ")" makes the expansion throw. */
  lemma ExpandUnclosedMarker(vars: Variables, lead: string, tail: string)
    requires NoMarker(lead) && NoClose(tail)
    ensures Expand(vars, lead + Marker + tail, 0) == Err(IndexOutOfBounds)
  {
    var s := lead + Marker + tail;
    FirstMarkerAfter("", lead, Marker, tail);
    assert "" + lead + Marker + tail == s;
    var at := |lead|;
    forall j | at <= j < |s|
      ensures s[j] != ')'
    {
      if j >= at + 3 {
        assert s[j] == tail[j - at - 3];
      }
    }
  }

  // ---------------------------------------------------------------------
  // Table mode

  /**
   * One conjunct (:431-461): the attribute name is resolved as a variable (null prints as
   * "null"); the value expression is resolved and trimmed, a quoted result loses its quotes,
   * anything else is resolved once more and kept literally when that yields null.
   */
  function Condition(vars: Variables, attribute: string, valueExpr: string): Result<(string, string)>
  {
    var newAttribute :- AsString(vars(attribute));
    var resolved :- AsString(vars(valueExpr));
    if resolved.None? then Err(NullPointer)
    else
      var v := Trim(resolved.value);
      var value :-
        if StartsWith(v, "\"") && EndsWith(v, "\"") then
          (if |v| < 2 then Err(IndexOutOfBounds) else Ok(v[1..|v| - 1]))
        else
          Ok(match vars(v) case None => v case Some(x) => Show(x));
      Ok((Concatenable(newAttribute), value))
  }

  function Segment(c: (string, string)): string {
    "(" + c.0 + "=" + c.1 + ")"
  }

  function Concat(ss: seq<string>): string {
    if ss == [] then [] else Concat(ss[..|ss| - 1]) + ss[|ss| - 1]
  }

  /** The conjuncts of the table's keys, in the order the Hashtable enumerates them. */
  function Conditions(vars: Variables, table: map<string, string>, keys: seq<string>): (r: Result<seq<(string, string)>>)
    requires forall k :: k in keys ==> k in table
    ensures r.Ok? ==> |r.value| == |keys|
  {
    if keys == [] then Ok([])
    else
      var init :- Conditions(vars, table, keys[..|keys| - 1]);
      var last := keys[|keys| - 1];
      var c :- Condition(vars, last, table[last]);
      Ok(init + [c])
  }

  /** `keys` lists every key of the table once: what Hashtable.keys() enumerates. */
  ghost predicate Enumerates(keys: seq<string>, table: map<string, string>) {
    (forall k :: k in keys <==> k in table)
    && (forall i, j :: 0 <= i < j < |keys| ==> keys[i] != keys[j])
  }

  /** The table filter: "" for an empty table, else "(&" + one "(attr=value)" per pair + ")". */
  function TableFilter(vars: Variables, table: map<string, string>, keys: seq<string>): Result<string>
    requires Enumerates(keys, table)
  {
    var cs :- Conditions(vars, table, keys);
    Ok(if cs == [] then "" else "(&" + Concat(Segments(cs)) + ")")
  }

  function Segments(cs: seq<(string, string)>): (ss: seq<string>)
    ensures |ss| == |cs| && forall i :: 0 <= i < |cs| ==> ss[i] == Segment(cs[i])
  {
    if cs == [] then [] else Segments(cs[..|cs| - 1]) + [Segment(cs[|cs| - 1])]
  }

  /** The text of the filter variable after the conjuncts `cs`, before the closing ")". */
  function Accumulated(cs: seq<(string, string)>): string {
    if cs == [] then "" else "(&" + Concat(Segments(cs))
  }

  /** One pass of the loop: the conjunction is opened before the first conjunct. */
  function Extend(filter: string, c: (string, string)): string {
    (if |filter| == 0 then "(&" else filter) + Segment(c)
  }

  lemma AccumulatedSnoc(cs: seq<(string, string)>, c: (string, string))
    ensures Accumulated(cs + [c]) == Extend(Accumulated(cs), c)
  {
    var ss := Segments(cs + [c]);
    assert ss == Segments(cs) + [Segment(c)];
    assert ss[..|ss| - 1] == Segments(cs);
    assert Concat(ss) == Concat(Segments(cs)) + Segment(c);
    if cs == [] {
      assert Concat(Segments(cs)) == [];
    } else {
      assert "(&" + (Concat(Segments(cs)) + Segment(c)) == ("(&" + Concat(Segments(cs))) + Segment(c);
    }
  }

  /** The conjuncts of one more key. */
  lemma ConditionsSnoc(vars: Variables, table: map<string, string>, keys: seq<string>, i: nat)
    requires forall k :: k in keys ==> k in table
    requires i < |keys|
    ensures forall k :: k in keys[..i] ==> k in table
    ensures forall k :: k in keys[..i + 1] ==> k in table
    ensures Conditions(vars, table, keys[..i + 1])
         == match Conditions(vars, table, keys[..i])
            case Err(e) => Err(e)
            case Ok(cs) =>
              match Condition(vars, keys[i], table[keys[i]])
              case Err(e) => Err(e)
              case Ok(c) => Ok(cs + [c])
  {
    assert keys[..i + 1][..i] == keys[..i];
    assert keys[..i + 1][i] == keys[i];
    assert forall k :: k in keys[..i + 1] ==> k in keys;
  }

  /** The first key whose conjunct throws decides the outcome of the whole enumeration. */
  lemma {:induction false} ConditionsFirstError(vars: Variables, table: map<string, string>, keys: seq<string>, i: nat)
    requires forall k :: k in keys ==> k in table
    requires i <= |keys|
    requires forall k :: k in keys[..i] ==> k in table
    requires Conditions(vars, table, keys[..i]).Err?
    ensures Conditions(vars, table, keys) == Conditions(vars, table, keys[..i])
    decreases |keys|
  {
    if i < |keys| {
      var init := keys[..|keys| - 1];
      assert init[..i] == keys[..i];
      assert forall k :: k in init ==> k in keys;
      ConditionsFirstError(vars, table, init, i);
    } else {
      assert keys[..i] == keys;
    }
  }

  /** The loop of buildSearchFilter's table branch (:427-468), over the Hashtable's keys. */
  method BuildTableFilter(vars: Variables, table: map<string, string>, keys: seq<string>) returns (r: Result<string>)
    requires Enumerates(keys, table)
    ensures r == TableFilter(vars, table, keys)
  {
    var filter := "";
    var i := 0;
    ghost var cs: seq<(string, string)> := [];
    assert keys[..0] == [];
    while i < |keys|
      invariant 0 <= i <= |keys|
      invariant forall k :: k in keys[..i] ==> k in table
      invariant Conditions(vars, table, keys[..i]) == Ok(cs)
      invariant filter == Accumulated(cs)
    {
      var oldAttribute := keys[i];
      var c := Condition(vars, oldAttribute, table[oldAttribute]);
      ConditionsSnoc(vars, table, keys, i);
      if c.Err? {
        ConditionsFirstError(vars, table, keys, i + 1);
        return Err(c.error);
      }
      filter := Extend(filter, c.value);
      AccumulatedSnoc(cs, c.value);
      cs := cs + [c.value];
      i := i + 1;
    }
    assert keys[..i] == keys;
    if |filter| > 0 {
      filter := filter + ")";
    }
    r := Ok(filter);
  }

  /** An empty table gives the empty filter. */
  lemma EmptyTableFilter(vars: Variables, keys: seq<string>)
    requires Enumerates(keys, map[])
    ensures TableFilter(vars, map[], keys) == Ok("")
  {
    EnumerationSize(keys, map[]);
  }

  /** Conjunct i of a successful enumeration is the condition of key i. */
  lemma {:induction false} ConditionsAt(vars: Variables, table: map<string, string>, keys: seq<string>, i: nat)
    requires forall k :: k in keys ==> k in table
    requires Conditions(vars, table, keys).Ok? && i < |keys|
    ensures Condition(vars, keys[i], table[keys[i]]) == Ok(Conditions(vars, table, keys).value[i])
    decreases |keys|
  {
    var init := keys[..|keys| - 1];
    assert forall k :: k in init ==> k in keys;
    if i < |keys| - 1 {
      assert init[i] == keys[i];
      ConditionsAt(vars, table, init, i);
    }
  }

  /**
   * With n >= 1 pairs the filter is "(&", then one "(attr=value)" per key in enumeration order,
   * then ")": a single pair is still wrapped.
   */
  lemma TableFilterShape(vars: Variables, table: map<string, string>, keys: seq<string>)
    requires Enumerates(keys, table) && |table| > 0
    requires TableFilter(vars, table, keys).Ok?
    ensures exists cs: seq<(string, string)> ::
              |cs| == |table| == |keys|
              && (forall i :: 0 <= i < |cs| ==> Condition(vars, keys[i], table[keys[i]]) == Ok(cs[i]))
              && TableFilter(vars, table, keys).value == "(&" + Concat(Segments(cs)) + ")"
  {
    var cs := Conditions(vars, table, keys).value;
    assert |keys| == |table| by {
      EnumerationSize(keys, table);
    }
    assert cs != [] by {
      var k :| k in table;
      assert k in keys;
    }
    forall i | 0 <= i < |cs|
      ensures Condition(vars, keys[i], table[keys[i]]) == Ok(cs[i])
    {
      ConditionsAt(vars, table, keys, i);
    }
  }

  lemma {:induction false} EnumerationSize(keys: seq<string>, table: map<string, string>)
    requires Enumerates(keys, table)
    ensures |keys| == |table|
  {
    var ks := set k | k in keys;
    assert ks == table.Keys;
    DistinctCardinality(keys);
  }

  lemma {:induction false} DistinctCardinality(keys: seq<string>)
    requires forall i, j :: 0 <= i < j < |keys| ==> keys[i] != keys[j]
    ensures |set k | k in keys| == |keys|
  {
    if keys != [] {
      var init := keys[..|keys| - 1];
      DistinctCardinality(init);
      assert (set k | k in keys) == (set k | k in init) + {keys[|keys| - 1]};
      assert keys[|keys| - 1] !in init;
    }
  }

  /** A value that resolves to a quoted string is used without its quotes; a null attribute prints as "null". */
  lemma ConditionQuoted(vars: Variables, attribute: string, valueExpr: string, name: Option<string>, literal: string)
    requires vars(attribute) == (match name case None => None case Some(a) => Some(Str(a)))
    requires vars(valueExpr) == Some(Str("\"" + literal + "\""))
    ensures Condition(vars, attribute, valueExpr) == Ok((Concatenable(name), literal))
  {
    var q := "\"" + literal + "\"";
    TrimOfTrimmed(q);
    assert q[1..|q| - 1] == literal;
  }

  /** A value that trims to a lone double quote makes substring(1, 0) throw. */
  lemma ConditionLoneQuote(vars: Variables, attribute: string, valueExpr: string, padded: string)
    requires AsString(vars(attribute)).Ok?
    requires vars(valueExpr) == Some(Str(padded)) && Trim(padded) == "\""
    ensures Condition(vars, attribute, valueExpr) == Err(IndexOutOfBounds)
  {
  }

  /** A value expression that resolves to null makes trim() throw. */
  lemma ConditionNullValue(vars: Variables, attribute: string, valueExpr: string)
    requires AsString(vars(attribute)).Ok?
    requires vars(valueExpr) == None
    ensures Condition(vars, attribute, valueExpr) == Err(NullPointer)
  {
  }

  /** An unquoted value is resolved once more, and kept as it is when that yields null. */
  lemma ConditionUnquoted(vars: Variables, attribute: string, valueExpr: string, v: string)
    requires AsString(vars(attribute)).Ok?
    requires vars(valueExpr) == Some(Str(v)) && Trim(v) == v
    requires !(StartsWith(v, "\"") && EndsWith(v, "\""))
    ensures Condition(vars, attribute, valueExpr).Ok?
    ensures Condition(vars, attribute, valueExpr).value.1
         == match vars(v) case None => v case Some(x) => Show(x)
  {
  }
}
