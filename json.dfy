/** JSON values as the paper search sees them after `json.load`, paper records as
    JSON objects, and the outcome of a Python call that may raise. */
module Json {
  import opened Text

  datatype Option<+T> = None | Some(value: T)

  /** A normal return, or an exception escaping the call. */
  datatype Outcome<+T> = Done(value: T) | Raised

  /** A JSON value (numbers are modelled as integers). */
  datatype Value =
    | Null
    | Bool(b: bool)
    | Num(n: int)
    | Str(s: string)
    | Arr(items: seq<Value>)
    | Obj(fields: map<string, Value>)

  /** A paper record: a JSON object (a Python dict). */
  type Record = map<string, Value>

  /** A value `str()` and f-strings render without recursion. */
  type Scalar = v: Value | !v.Arr? && !v.Obj? witness Null

  /** Python truthiness of a JSON value. */
  predicate Truthy(v: Value) {
    match v
    case Null => false
    case Bool(b) => b
    case Num(n) => n != 0
    case Str(s) => s != ""
    case Arr(items) => items != []
    case Obj(fields) => fields != map[]
  }

  /** Python's `str(v)` for a scalar. */
  function PyStr(v: Scalar): string {
    match v
    case Null => "None"
    case Bool(b) => if b then "True" else "False"
    case Num(n) => IntToString(n)
    case Str(s) => s
  }

  /** `d.get(key, default)` where `None` stands for an absent key. */
  function GetOr<T>(o: Option<T>, default: T): T {
    match o
    case Some(v) => v
    case None => default
  }

  /** `record.get(key, default)`. */
  function Field(r: Record, key: string, default: Value): Value {
    if key in r then r[key] else default
  }

  /** `(record.get(key) or "")` read as text: a string field, or "" when the
      field is missing, null or otherwise not a string. */
  function FieldText(r: Record, key: string): string {
    if key in r && r[key].Str? then r[key].s else ""
  }

  /** A key that exists: computing it did not raise. */
  predicate Present<K>(k: Option<K>) {
    k.Some?
  }

  /** Computing `key` raises for none of `xs`. */
  ghost predicate AllKeyed<T, K>(xs: seq<T>, key: T -> Option<K>) {
    forall x :: x in xs ==> key(x).Some?
  }

  lemma AllKeyedAppend<T, K>(xs: seq<T>, x: T, key: T -> Option<K>)
    ensures AllKeyed(xs + [x], key) <==> AllKeyed(xs, key) && key(x).Some?
  {
    assert x in xs + [x];
    assert forall y :: y in xs ==> y in xs + [x];
  }
}
