/** Parsed JSON, and the typed reads the verifier makes of it: a value of another type reads as absent. */
module Json {
  import opened Wrappers

  const I64_MIN: int := -0x8000_0000_0000_0000
  const I64_MAX: int := 0x7FFF_FFFF_FFFF_FFFF

  datatype Value =
    | Null
    | Bool(b: bool)
    | Integer(n: int)
    | OtherNumber
    | Str(s: string)
    | Arr(items: seq<Value>)
    | Obj(members: Object)

  type Object = map<string, Value>

  function Get(o: Object, key: string): Option<Value> {
    if key in o then Some(o[key]) else None
  }

  /** `get(key).and_then(as_str)` */
  function GetStr(o: Object, key: string): Option<string> {
    if key in o && o[key].Str? then Some(o[key].s) else None
  }

  /** `get(key).and_then(as_i64)` */
  function GetI64(o: Object, key: string): (r: Option<int>)
    ensures r.Some? ==> I64_MIN <= r.value <= I64_MAX
  {
    if key in o && o[key].Integer? && I64_MIN <= o[key].n <= I64_MAX then Some(o[key].n) else None
  }

  function GetObject(o: Object, key: string): Option<Object> {
    if key in o && o[key].Obj? then Some(o[key].members) else None
  }

  /** Each read finds the member of that name, and only if it has the type. */
  lemma ReadsIff(o: Object, key: string)
    ensures forall v :: Get(o, key) == Some(v) <==> (key, v) in o.Items
    ensures forall s :: GetStr(o, key) == Some(s) <==> (key, Str(s)) in o.Items
    ensures forall n :: GetI64(o, key) == Some(n) <==>
                        (key, Integer(n)) in o.Items && -0x8000_0000_0000_0000 <= n <= 0x7FFF_FFFF_FFFF_FFFF
    ensures forall m :: GetObject(o, key) == Some(m) <==> (key, Obj(m)) in o.Items
  {}
}
