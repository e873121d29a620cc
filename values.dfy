/** Request-body values as the route handlers see them, and JavaScript truthiness. */
module Values {

  datatype Option<T> = None | Some(value: T)

  /** A field read from the request body. Multipart form fields are strings or
      absent; a JSON body can also carry null, booleans and numbers. */
  datatype Field = Undefined | Null | Bool(b: bool) | Num(x: real) | Str(s: string)

  /** JavaScript truthiness: undefined, null, false, 0 and "" are falsy. */
  predicate Truthy(v: Field)
    ensures !Truthy(v) <==> v in {Undefined, Null, Bool(false), Num(0.0), Str("")}
  {
    match v
    case Undefined => false
    case Null => false
    case Bool(b) => b
    case Num(x) => x != 0.0
    case Str(s) => s != ""
  }

  /** The short-circuit `a || b` of JavaScript. */
  function Or(a: Field, b: Field): (r: Field)
    ensures r == a || r == b
    ensures Truthy(r) <==> Truthy(a) || Truthy(b)
    ensures Truthy(a) ==> r == a
    ensures !Truthy(a) ==> r == b
  {
    if Truthy(a) then a else b
  }
}
