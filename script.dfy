/**
 * getVariable: the element's only access to the scripting engine. The engine itself is
 * an abstract function from an IvyScript expression to its outcome.
 */
module Script {
  import opened Wrappers
  import opened Text

  /** A value an expression evaluates to: a String, or another object known by its toString(). */
  datatype Value = Str(s: string) | Object(text: string)

  /** Evaluating an expression yields a value (possibly null) or raises a script error. */
  datatype Evaluation = Evaluated(result: Option<Value>) | ScriptFailed

  type Engine = string -> Evaluation

  /** The expression getVariable evaluates: the name itself if it mentions "in.", else "in." + name. */
  function ExpressionFor(name: string): (e: string)
    ensures Contains(e, Marker)
    ensures StartsWith(e, Marker) || e == name
    ensures Contains(name, Marker) ==> e == name
  {
    if Contains(name, Marker) then name
    else
      assert OccursAt(Marker + name, Marker, 0);
      Marker + name
  }

  /** getVariable: a script error yields the name itself. */
  function GetVariable(engine: Engine, name: string): Option<Value> {
    match engine(ExpressionFor(name))
    case Evaluated(v) => v
    case ScriptFailed => Some(Str(name))
  }

  /** getVariable(_, cont) for one script context: what the element sees of the process data. */
  type Variables = string -> Option<Value>

  function VariablesOf(engine: Engine): Variables {
    name => GetVariable(engine, name)
  }

  /** Object.toString of a resolved value. */
  function Show(v: Value): string {
    match v
    case Str(s) => s
    case Object(t) => t
  }

  /** The `(String)` cast of a resolved value: null stays null, a non-string raises ClassCast. */
  function AsString(v: Option<Value>): Result<Option<string>> {
    match v
    case None => Ok(None)
    case Some(Str(s)) => Ok(Some(s))
    case Some(Object(_)) => Err(ClassCast)
  }

  /** An unresolvable name is read back as itself. */
  lemma FailedScriptYieldsName(engine: Engine, name: string)
    requires forall e :: engine(e) == ScriptFailed
    ensures GetVariable(engine, name) == Some(Str(name))
    ensures AsString(GetVariable(engine, name)) == Ok(Some(name))
  {
  }
}
