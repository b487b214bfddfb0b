/**
 * The host's process data (CompositeObject) as a tree of values, and setVariable,
 * which writes a dotted attribute path into it, as a pure update.
 */
module Composite {
  import opened Wrappers
  import opened Text

  /** A host value: what an output attribute can hold. */
  datatype Data =
    | Null
    | Str(s: string)                                     // a String
    | Strings(values: seq<string>)                       // a List<String> of attribute values
    | Enumeration(values: seq<string>)                   // the NamingEnumeration of Attribute.getAll()
    | List(elements: seq<Data>)                          // a java.util.List / Vector
    | Records(columns: seq<string>, rows: seq<seq<Data>>) // a Recordset
    | Node(fields: Fields)                               // a nested CompositeObject

  /** The fields of a composite object; the key set is fixed by the object's type. */
  type Fields = map<string, Data>

  /** One navigation step of setVariable: a leading "in." is dropped, then the path splits at its first dot. */
  datatype Step = Leaf(field: string) | Inner(field: string, rest: string)

  function StepOf(name: string): (st: Step)
    ensures st.Inner? ==> |st.rest| < |name|
  {
    var n := StripMarker(name);
    match Find(n, ".")
    case None => Leaf(n)
    case Some(i) => Inner(n[..i], n[i + 1..])
  }

  /** The top-level field a path starts with. */
  function Head(name: string): string {
    StepOf(name).field
  }

  /**
   * setVariable(name, value, argument): the last path segment is set on the composite that the
   * earlier segments lead to. A missing field raises NoSuchField, a null intermediate a
   * NullPointer and an intermediate that is not a composite a ClassCast.
   */
  function SetVariable(fields: Fields, name: string, value: Data): (r: Result<Fields>)
    ensures r.Ok? ==> r.value.Keys == fields.Keys
    ensures r.Ok? ==> forall f :: f in fields && f != Head(name) ==> r.value[f] == fields[f]
    decreases |name|
  {
    match StepOf(name)
    case Leaf(f) =>
      if f in fields then Ok(fields[f := value]) else Err(NoSuchField)
    case Inner(f, rest) =>
      if f !in fields then Err(NoSuchField)
      else
        match fields[f]
        case Node(child) =>
          var updated :- SetVariable(child, rest, value);
          Ok(fields[f := Node(updated)])
        case Null => Err(NullPointer)
        case _ => Err(ClassCast)
  }

  /** Reads a path the way setVariable navigates it; None where setVariable would throw. */
  function Lookup(fields: Fields, name: string): Option<Data>
    decreases |name|
  {
    match StepOf(name)
    case Leaf(f) =>
      if f in fields then Some(fields[f]) else None
    case Inner(f, rest) =>
      if f in fields && fields[f].Node? then Lookup(fields[f].fields, rest) else None
  }

  /** A written path reads back the value written. */
  lemma {:induction false} ReadAfterWrite(fields: Fields, name: string, value: Data)
    requires SetVariable(fields, name, value).Ok?
    ensures Lookup(SetVariable(fields, name, value).value, name) == Some(value)
    decreases |name|
  {
    match StepOf(name)
    case Leaf(f) =>
    case Inner(f, rest) =>
      ReadAfterWrite(fields[f].fields, rest, value);
  }

  /** The write succeeds exactly when the path can already be read. */
  lemma {:induction false} WriteSucceedsIffReadable(fields: Fields, name: string, value: Data)
    ensures SetVariable(fields, name, value).Ok? <==> Lookup(fields, name).Some?
    decreases |name|
  {
    match StepOf(name)
    case Leaf(f) =>
    case Inner(f, rest) =>
      if f in fields && fields[f].Node? {
        WriteSucceedsIffReadable(fields[f].fields, rest, value);
      }
  }

  /**
   * The fields a path navigates, one per segment: what setVariable and Lookup follow. Two
   * spellings of one output ("in.user.name" and "user.name") have the same path.
   */
  function Path(name: string): (p: seq<string>)
    ensures |p| >= 1 && p[0] == Head(name)
    decreases |name|
  {
    match StepOf(name)
    case Leaf(f) => [f]
    case Inner(f, rest) => [f] + Path(rest)
  }

  /** Neither path leads into the other: they part at some segment. */
  predicate Apart(a: seq<string>, b: seq<string>)
    decreases |a|
  {
    a != [] && b != [] && (a[0] != b[0] || Apart(a[1..], b[1..]))
  }

  lemma {:induction false} ApartSymmetric(a: seq<string>, b: seq<string>)
    requires Apart(a, b)
    ensures Apart(b, a)
    decreases |a|
  {
    if a[0] == b[0] {
      ApartSymmetric(a[1..], b[1..]);
    }
  }

  /** A read depends only on the fields the path navigates. */
  lemma {:induction false} LookupFollowsPath(fields: Fields, a: string, b: string)
    requires Path(a) == Path(b)
    ensures Lookup(fields, a) == Lookup(fields, b)
    decreases |a|
  {
    match StepOf(a)
    case Leaf(f) =>
    case Inner(f, rest) =>
      assert StepOf(b).Inner? && Path(rest) == Path(StepOf(b).rest) by {
        assert |Path(a)| >= 2;
        assert Path(a)[1..] == Path(rest);
        if StepOf(b).Inner? {
          assert Path(b)[1..] == Path(StepOf(b).rest);
        }
      }
      if f in fields && fields[f].Node? {
        LookupFollowsPath(fields[f].fields, rest, StepOf(b).rest);
      }
  }

  /** A written path reads back the value written under every spelling of it. */
  lemma ReadSamePath(fields: Fields, name: string, value: Data, other: string)
    requires SetVariable(fields, name, value).Ok?
    requires Path(other) == Path(name)
    ensures Lookup(SetVariable(fields, name, value).value, other) == Some(value)
  {
    ReadAfterWrite(fields, name, value);
    LookupFollowsPath(SetVariable(fields, name, value).value, name, other);
  }

  /**
   * A path that neither leads into the written one nor out of it reads the same after the
   * write: another top-level field, or a sibling such as "user.mail" after writing "user.name".
   */
  lemma {:induction false} WriteLeavesOtherPaths(fields: Fields, name: string, value: Data, other: string)
    requires SetVariable(fields, name, value).Ok?
    requires Apart(Path(name), Path(other))
    ensures Lookup(SetVariable(fields, name, value).value, other) == Lookup(fields, other)
    decreases |name|
  {
    var after := SetVariable(fields, name, value).value;
    if Head(other) == Head(name) {
      match StepOf(name)
      case Leaf(f) =>
      case Inner(f, rest) =>
        var child := fields[f].fields;
        assert Path(name)[1..] == Path(rest);
        match StepOf(other)
        case Leaf(g) =>
        case Inner(g, orest) =>
          assert Path(other)[1..] == Path(orest);
          WriteLeavesOtherPaths(child, rest, value, orest);
    }
  }
}
