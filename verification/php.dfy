/** The handful of PHP value semantics the gateway relies on: nullable values,
    strict comparison, truthiness, `empty()` on strings and `%s` rendering. */
module Php {

  /** A value that may be missing (PHP `null` / `false` sentinel returns). */
  datatype Option<+T> = None | Some(value: T)

  /** A scalar PHP value as it arrives from decoded JSON, order meta or query vars.
      Dafny equality on `Value` is PHP's strict `===`. */
  datatype Value = Null | Bool(b: bool) | Int(i: int) | Str(s: string)

  /** PHP's conversion to bool, as used by `cond ? a : b` and `if`. */
  predicate Truthy(v: Value)
  {
    match v
    case Null => false
    case Bool(b) => b
    case Int(i) => i != 0
    case Str(s) => s != "" && s != "0"
  }

  /** `empty($s)` for a string: both the empty string and "0" are empty. */
  predicate EmptyString(s: string)
  {
    s == "" || s == "0"
  }

  /** Decimal digits of a natural number, most significant first. */
  function NatToString(n: nat): (r: string)
    ensures |r| > 0
    ensures forall k :: 0 <= k < |r| ==> '0' <= r[k] <= '9'
    decreases n
  {
    var d := ['0' + (n % 10) as char];
    if n < 10 then d else NatToString(n / 10) + d
  }

  /** PHP's conversion to string, as used by `sprintf('%s', v)` and `.`. */
  function Render(v: Value): string
  {
    match v
    case Null => ""
    case Bool(b) => if b then "1" else ""
    case Int(i) => if i < 0 then "-" + NatToString(-i) else NatToString(i)
    case Str(s) => s
  }
}
