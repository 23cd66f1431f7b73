/** JavaScript values as they reach the library's public functions, and the
    argument check `_validateParams` applies to them. */
module JsValues {

  datatype Option<T> = None | Some(value: T)

  /** A value passed by a caller. Numbers are exact reals (NaN and the
      infinities are not modelled); a function is an opaque token together
      with whether calling it throws. */
  datatype JsValue =
    | Undefined
    | Null
    | Bool(b: bool)
    | Num(n: real)
    | Str(s: string)
    | Func(token: nat, throws: bool)
    | Obj(tag: nat)

  /** JavaScript's ToBoolean: the test behind `!x`, `x || y` and `if (x)`. */
  predicate Truthy(v: JsValue) {
    match v
    case Undefined => false
    case Null => false
    case Bool(b) => b
    case Num(n) => n != 0.0
    case Str(s) => s != ""
    case Func(_, _) => true
    case Obj(_) => true
  }

  /** `_validateParams`: the message must be truthy and a string, and a truthy
      callback must be a function.  The contract says which calls pass:
      exactly a non-empty string message together with a function or a falsy
      callback (so a missing, null, false, 0 or "" callback is accepted). */
  function ValidateParams(message: JsValue, callback: JsValue): (ok: bool)
    ensures ok <==> message.Str? && message.s != "" && (callback.Func? || !Truthy(callback))
  {
    if !Truthy(message) || !message.Str? then false
    else if Truthy(callback) && !callback.Func? then false
    else true
  }
}
