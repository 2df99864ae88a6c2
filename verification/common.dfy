/** Values shared by every part of the model: optional values, identifiers,
    and the JavaScript truthiness rules the handlers branch on. */
module Common {

  /** An optional value: `undefined`/`null` on the JavaScript side. */
  datatype Option<+T> = None | Some(value: T)

  /** A database or connection identifier (a MongoDB ObjectId or a socket id).
      Identifiers are opaque; the model only compares them for equality
      and allocates fresh ones from a counter. */
  type Id = nat

  /** JavaScript truthiness of an optional string: `undefined`, `null` and
      the empty string are falsy, every other string is truthy. */
  predicate Truthy(s: Option<string>) {
    s.Some? && s.value != ""
  }

  /** The JavaScript expression `s || fallback` for an optional string. */
  function OrElse(s: Option<string>, fallback: string): string {
    if Truthy(s) then s.value else fallback
  }
}
