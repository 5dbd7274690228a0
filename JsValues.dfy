/** The JSON values the handler receives, and JavaScript truthiness on them. */
module JsValues {

  /** `Other` stands for any array or object; `undefined` is a missing property. */
  datatype JsValue = Undefined | Null | Bool(b: bool) | Number(n: real) | Str(s: string) | Other

  /** `!!v`: false, 0, "", null and undefined are falsy (JSON has no NaN). */
  predicate Truthy(v: JsValue)
    ensures !Truthy(v) <==> v in {Undefined, Null, Bool(false), Number(0.0), Str("")}
  {
    match v
    case Undefined => false
    case Null => false
    case Bool(b) => b
    case Number(n) => n != 0.0
    case Str(s) => s != ""
    case Other => true
  }
}
