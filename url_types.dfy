/**
 * The values the URL resolver works on: the `UrlObject` record of
 * next/src/lib/resolve-href.ts, the query values it may hold, and the two
 * runtime functions it calls.
 */
module UrlTypes {
  import opened Wrappers
  import opened Records
  import opened Strings

  /** An optional field: JavaScript distinguishes `null` from `undefined`, and a
      template literal prints them as "null" and "undefined". */
  datatype Nullable<+T> = Null | Undefined | Present(value: T)

  /** A string field used as a condition: set and not empty. */
  predicate Truthy(n: Nullable<string>) {
    n.Present? && n.value != ""
  }

  /** `n ?? ""`. */
  function OrEmpty(n: Nullable<string>): string {
    if n.Present? then n.value else ""
  }

  /** `${n}` inside a template literal. */
  function Interpolate(n: Nullable<string>): string {
    match n
    case Null => "null"
    case Undefined => "undefined"
    case Present(s) => s
  }

  /** `n?.startsWith(p)`, false when `n` is null or undefined. */
  predicate FieldStartsWith(n: Nullable<string>, p: string) {
    n.Present? && StartsWith(n.value, p)
  }

  /** A query value. Numbers and bigints carry the text `String(n)` gives them;
      `Other` is any other object, with the text `String(o)` gives it. */
  datatype Value =
    | Str(s: string)
    | Num(text: string)
    | Bool(b: bool)
    | BigInt(text: string)
    | NullValue
    | UndefinedValue
    | List(items: seq<Value>)
    | Other(text: string)

  predicate IsScalar(v: Value) {
    v.Str? || v.Num? || v.Bool? || v.BigInt?
  }

  predicate IsNullish(v: Value) {
    v.NullValue? || v.UndefinedValue?
  }

  /** `String(v)`; an array joins its items with "," and prints null and undefined items as "". */
  function Stringify(v: Value): string {
    match v
    case Str(s) => s
    case Num(t) => t
    case Bool(b) => if b then "true" else "false"
    case BigInt(t) => t
    case NullValue => "null"
    case UndefinedValue => "undefined"
    case Other(t) => t
    case List(items) =>
      Join(seq(|items|, i requires 0 <= i < |items| =>
        if IsNullish(items[i]) then "" else Stringify(items[i])), ",")
  }

  /** `query` is either a raw string or a dictionary. */
  datatype Query = QueryText(text: string) | QueryRecord(entries: Record<Value>)

  /** `port` is a string or a number; a number carries its `String(n)` text. */
  datatype Port = PortText(text: string) | PortNumber(digits: string)

  /** `if (port)`: an empty string, 0 and NaN are falsy. */
  predicate PortTruthy(p: Nullable<Port>) {
    p.Present? &&
    match p.value
    case PortText(t) => t != ""
    case PortNumber(d) => d != "0" && d != "NaN"
  }

  function PortString(p: Port): string {
    match p
    case PortText(t) => t
    case PortNumber(d) => d
  }

  datatype UrlObject = UrlObject(
    protocol: Nullable<string>,
    slashes: Nullable<bool>,
    auth: Nullable<string>,
    host: Nullable<string>,
    port: Nullable<Port>,
    hostname: Nullable<string>,
    hash: Nullable<string>,
    search: Nullable<string>,
    query: Nullable<Query>,
    pathname: Nullable<string>,
    path: Nullable<string>,
    href: Nullable<string>)

  /** decodeURIComponent and encodeURIComponent; `None` is the URIError they throw
      on a malformed escape or a lone surrogate. */
  datatype Runtime = Runtime(decode: string -> Option<string>, encode: string -> Option<string>)
}
