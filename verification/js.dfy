/** JavaScript values as the client uses them: properties that may be
    absent, calls that may throw, values concatenated into strings, and
    the truthiness test behind `x || default` and `if (x)`. */
module Js {

  /** A property that is either absent (`undefined`) or holds a value. */
  datatype Option<+T> = None | Some(value: T)

  /** The outcome of a call that either returns a value or throws. */
  datatype Result<+T, +E> = Ok(value: T) | Err(error: E)

  /** A value that the client concatenates into a string. */
  datatype JsValue = Undefined | Null | Str(s: string)

  /** What `'' + v` produces for each kind of value. */
  function ToStr(v: JsValue): string
  {
    match v
    case Undefined => "undefined"
    case Null => "null"
    case Str(s) => s
  }

  /** A string-valued property is truthy when it is present and not empty. */
  predicate Truthy(o: Option<string>)
  {
    o.Some? && o.value != ""
  }

  /** `o || fallback` for a string-valued property. */
  function OrElse(o: Option<string>, fallback: string): string
  {
    if Truthy(o) then o.value else fallback
  }

  /** Property access on a string-keyed object: `m[k]`, or `undefined`. */
  function Lookup(m: map<string, string>, k: string): Option<string>
  {
    if k in m then Some(m[k]) else None
  }
}
