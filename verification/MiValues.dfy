/** The values of GDB/MI output, their canonical text ("GDB/MI Output Syntax",
    section 27.2.2 of the GDB manual), and which printed values read back. */
module MiValues {
  import opened Text
  import opened CStrings

  datatype Value =
    | Str(s: string)
    | Tup(fields: seq<Result>)
    | Lst(list: List)

  datatype List =
    | Values(vs: seq<Value>)
    | Results(rs: seq<Result>)

  datatype Result = Result(variable: string, value: Value)

  /** A default-constructed list holds no values; `[]` leaves it so. */
  const EMPTY_LIST: Value := Lst(Values([]))

  function PrintValue(v: Value): string
    decreases v, 0
  {
    match v
    case Str(s) => PrintString(s)
    case Tup(rs) => "{" + PrintResults(rs) + "}"
    case Lst(Values(vs)) => "[" + PrintValues(vs) + "]"
    case Lst(Results(rs)) => "[" + PrintResults(rs) + "]"
  }

  function PrintResult(r: Result): string
    decreases r, 0
  {
    r.variable + "=" + PrintValue(r.value)
  }

  function PrintResults(rs: seq<Result>): string
    decreases rs, 1
  {
    if rs == [] then "" else PrintResult(rs[0]) + PrintMoreResults(rs[1..])
  }

  /** Every result with the comma in front of it. */
  function PrintMoreResults(rs: seq<Result>): string
    decreases rs, 0
  {
    if rs == [] then "" else "," + PrintResult(rs[0]) + PrintMoreResults(rs[1..])
  }

  function PrintValues(vs: seq<Value>): string
    decreases vs, 1
  {
    if vs == [] then "" else PrintValue(vs[0]) + PrintMoreValues(vs[1..])
  }

  function PrintMoreValues(vs: seq<Value>): string
    decreases vs, 0
  {
    if vs == [] then "" else "," + PrintValue(vs[0]) + PrintMoreValues(vs[1..])
  }

  predicate ProperName(name: string) {
    name != "" && '=' !in name
  }

  /** A name no value rule can mistake for the start of a value. */
  predicate PlainName(name: string) {
    ProperName(name) && name[0] !in {'"', '{', '['}
  }

  /** Trees the grammar can produce: proper names, no empty tuple, no empty list
      of results. */
  predicate WellFormed(v: Value)
    decreases v, 0
  {
    match v
    case Str(_) => true
    case Tup(rs) => rs != [] && WellFormedResults(rs)
    case Lst(Values(vs)) => WellFormedValues(vs)
    case Lst(Results(rs)) => rs != [] && WellFormedResults(rs)
  }

  predicate WellFormedResults(rs: seq<Result>)
    decreases rs, 0
  {
    rs != [] ==>
      ProperName(rs[0].variable) && WellFormed(rs[0].value) && WellFormedResults(rs[1..])
  }

  predicate WellFormedValues(vs: seq<Value>)
    decreases vs, 0
  {
    vs != [] ==> WellFormed(vs[0]) && WellFormedValues(vs[1..])
  }

  /** Values that read back whatever text follows them: strings are Escapable,
      every non-empty list of values starts with a tuple, and no list of results
      starts with a ']' (it would look like an empty list). */
  predicate Robust(v: Value)
    decreases v, 0
  {
    match v
    case Str(s) => Escapable(s)
    case Tup(rs) => rs != [] && RobustResults(rs)
    case Lst(Values(vs)) => (vs != [] ==> vs[0].Tup?) && RobustValues(vs)
    case Lst(Results(rs)) => rs != [] && !Opens(rs[0].variable, ']') && RobustResults(rs)
  }

  predicate RobustResults(rs: seq<Result>)
    decreases rs, 0
  {
    rs != [] ==> ProperName(rs[0].variable) && Robust(rs[0].value) && RobustResults(rs[1..])
  }

  predicate RobustValues(vs: seq<Value>)
    decreases vs, 0
  {
    vs != [] ==> Robust(vs[0]) && RobustValues(vs[1..])
  }

  /** The variable printed last in a value, `name` if it has none. */
  function LastName(v: Value, name: string): string
    decreases v, 0
  {
    match v
    case Str(_) => name
    case Tup(rs) => LastNameOf(rs, name)
    case Lst(Values(vs)) => LastNameIn(vs, name)
    case Lst(Results(rs)) => LastNameOf(rs, name)
  }

  function LastNameOf(rs: seq<Result>, name: string): string
    decreases rs, 0
  {
    if rs == [] then name
    else LastNameOf(rs[1..], LastName(rs[0].value, rs[0].variable))
  }

  function LastNameIn(vs: seq<Value>, name: string): string
    decreases vs, 0
  {
    if vs == [] then name else LastNameIn(vs[1..], LastName(vs[0], name))
  }

  lemma ResultsCons(r: Result, rs: seq<Result>)
    ensures PrintResults([r] + rs) == PrintResult(r) + PrintMoreResults(rs)
    ensures PrintMoreResults([r] + rs) == "," + PrintResult(r) + PrintMoreResults(rs)
    ensures WellFormedResults([r] + rs)
       <==> ProperName(r.variable) && WellFormed(r.value) && WellFormedResults(rs)
  {
    assert ([r] + rs)[1..] == rs;
  }

  lemma ValuesCons(v: Value, vs: seq<Value>)
    ensures PrintValues([v] + vs) == PrintValue(v) + PrintMoreValues(vs)
    ensures PrintMoreValues([v] + vs) == "," + PrintValue(v) + PrintMoreValues(vs)
    ensures WellFormedValues([v] + vs) <==> WellFormed(v) && WellFormedValues(vs)
  {
    assert ([v] + vs)[1..] == vs;
  }

  lemma RobustCons(r: Result, rs: seq<Result>)
    ensures RobustResults([r] + rs)
       <==> ProperName(r.variable) && Robust(r.value) && RobustResults(rs)
  {
    assert ([r] + rs)[1..] == rs;
  }
}
