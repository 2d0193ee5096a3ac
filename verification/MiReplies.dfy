/** Reading typed data out of parsed results: the accessors of `value` and `list`,
    and `find`, with the exceptions they throw. */
module MiReplies {
  import opened MiValues
  import opened MiLookup
  import opened Numbers

  datatype Error =
    | MissingValue
    | UnexpectedType
    | BadNumber
    | NotAccepted
    | UnexpectedClass

  /** The outcome of code that may throw. */
  datatype Try<+T> = Ok(value: T) | Thrown(error: Error) {
    predicate IsFailure() {
      Thrown?
    }

    function PropagateFailure<U>(): Try<U>
      requires Thrown?
    {
      Thrown(error)
    }

    function Extract(): T
      requires Ok?
    {
      value
    }
  }

  function Find(rs: seq<Result>, id: string): Try<Value> {
    var v := FindIf(rs, id);
    if v.Some? then Ok(v.value) else Thrown(MissingValue)
  }

  function AsString(v: Value): Try<string> {
    if v.Str? then Ok(v.s) else Thrown(UnexpectedType)
  }

  function AsTuple(v: Value): Try<seq<Result>> {
    if v.Tup? then Ok(v.fields) else Thrown(UnexpectedType)
  }

  function AsValues(v: Value): Try<seq<Value>> {
    if v.Lst? && v.list.Values? then Ok(v.list.vs) else Thrown(UnexpectedType)
  }

  function FindString(rs: seq<Result>, id: string): Try<string> {
    var v :- Find(rs, id);
    AsString(v)
  }

  function FindU64(rs: seq<Result>, id: string, base: nat): Try<nat> {
    var s :- FindString(rs, id);
    var n := Stoull(s, base);
    if n.Parsed? then Ok(n.value) else Thrown(BadNumber)
  }

  function FindInt(rs: seq<Result>, id: string, base: nat): Try<int> {
    var s :- FindString(rs, id);
    var n := Stoi(s, base);
    if n.Parsed? then Ok(n.value) else Thrown(BadNumber)
  }

  // ---- What has to be there ----

  predicate HoldsText(rs: seq<Result>, id: string) {
    var v := FindIf(rs, id);
    v.Some? && v.value.Str?
  }

  function TextAt(rs: seq<Result>, id: string): string
    requires HoldsText(rs, id)
  {
    FindIf(rs, id).value.s
  }

  predicate HoldsInt(rs: seq<Result>, id: string, base: nat) {
    HoldsText(rs, id) && Stoi(TextAt(rs, id), base).Parsed?
  }

  predicate HoldsU64(rs: seq<Result>, id: string, base: nat) {
    HoldsText(rs, id) && Stoull(TextAt(rs, id), base).Parsed?
  }

  /** Why a number cannot be read: it is missing, no text, or no number of that size. */
  lemma NumberErrors(rs: seq<Result>, id: string, base: nat)
    ensures FindInt(rs, id, base).Ok? <==> HoldsInt(rs, id, base)
    ensures FindU64(rs, id, base).Ok? <==> HoldsU64(rs, id, base)
    ensures FindInt(rs, id, base) == Thrown(MissingValue) <==> forall r | r in rs :: r.variable != id
    ensures FindU64(rs, id, base) == Thrown(MissingValue) <==> forall r | r in rs :: r.variable != id
    ensures FindInt(rs, id, base) == Thrown(BadNumber) <==> HoldsText(rs, id) && !HoldsInt(rs, id, base)
    ensures FindU64(rs, id, base) == Thrown(BadNumber) <==> HoldsText(rs, id) && !HoldsU64(rs, id, base)
  {
  }
}
