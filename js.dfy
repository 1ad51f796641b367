/**
 * JavaScript values the rest of the model needs: `undefined`/`null`,
 * thrown errors, truthiness of strings, template-literal rendering and
 * `Array.prototype.join` on strings.
 */
module Js {

  /** A value that may be `undefined` (or `null`): None stands for both. */
  datatype Option<+T> = None | Some(value: T)

  /** The exceptions the core can throw. */
  datatype JsError =
    | TypeError  // property access on `undefined` or `null`
    | URIError   // malformed input to `decodeURIComponent`

  /** A computation that either returns a value or throws. */
  datatype Result<+T> = Ok(value: T) | Err(error: JsError)

  /** A string value is truthy exactly when it is defined and non-empty. */
  predicate Truthy(s: Option<string>)
  {
    s.Some? && s.value != []
  }

  /** How a template literal `${x}` renders a possibly undefined string. */
  function Render(s: Option<string>): string
  {
    match s
    case Some(v) => v
    case None => "undefined"
  }

  /** `parts.join(sep)`: the parts with `sep` between neighbours. */
  function Join(parts: seq<string>, sep: string): string
  {
    if parts == [] then []
    else if |parts| == 1 then parts[0]
    else parts[0] + sep + Join(parts[1..], sep)
  }

  /** Joining a list with a first part: that part, then the separator and the rest when there is a rest. */
  lemma JoinCons(first: string, rest: seq<string>, sep: string)
    ensures Join([first] + rest, sep) == if rest == [] then first else first + sep + Join(rest, sep)
  {
    if rest == [] {
      assert [first] + rest == [first];
    } else {
      assert ([first] + rest)[1..] == rest;
    }
  }
}
