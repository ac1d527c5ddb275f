/** Parsed JSON documents. */
module JsonValue {
  datatype Json = Null | Bool(b: bool) | Int(n: int) | Float(r: real) | Str(s: string) | Arr(items: seq<Json>) | Obj(m: map<string, Json>) {
    /** Python's truth value. */
    predicate Truthy() {
      match this
      case Null => false
      case Bool(b) => b
      case Int(n) => n != 0
      case Float(r) => r != 0.0
      case Str(s) => s != ""
      case Arr(items) => items != []
      case Obj(m) => m != map[]
    }
  }

  lemma {:induction false} FalseValues(v: Json)
    ensures v.Truthy() <==> v !in [Null, Bool(false), Int(0), Float(0.0), Str(""), Arr([]), Obj(map[])]
  {
  }
}
