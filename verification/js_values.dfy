/**
 The JavaScript values a request can carry, and the two pieces of JavaScript
 semantics the handlers lean on: truthiness (what `if (x)` and `a || b` test)
 and the service's `safeTrim` helper.
 */
module JsValues {
  import opened Wrappers
  import opened Strings

  /**
   A value read from a request body. A key missing from the body reads as
   `Undefined`; JSON `null` is `Null`; numbers are integers (fractions and NaN
   are not modelled); multipart form fields are always `Str`.
   */
  datatype JsVal = Undefined | Null | Num(n: int) | Str(s: string)

  /** JavaScript truthiness: `undefined`, `null`, `0` and `""` are falsy. */
  predicate Truthy(v: JsVal) {
    match v
    case Undefined => false
    case Null => false
    case Num(n) => n != 0
    case Str(s) => s != ""
  }

  /** JavaScript `a || b`: the left operand when it is truthy, the right one otherwise. */
  function Or(a: JsVal, b: JsVal): JsVal {
    if Truthy(a) then a else b
  }

  /** A header or environment variable: a string, or `undefined` when it is not set. */
  function FromOptional(o: Option<string>): JsVal {
    match o
    case None => Undefined
    case Some(s) => Str(s)
  }

  /**
   `safeTrim(s)` (app.js): the trimmed string when `s` is a string, and the
   empty string for any other value.
   */
  function SafeTrim(v: JsVal): (r: string)
    ensures IsTrimmed(r)
    ensures !v.Str? ==> r == ""
    ensures v.Str? ==> |r| <= |v.s|
    ensures v.Str? && AllWhitespace(v.s) ==> r == ""
  {
    match v
    case Str(s) =>
      if AllWhitespace(s) then TrimAllWhitespace(s); Trim(s) else Trim(s)
    case _ => ""
  }

  /** Padding a string with whitespace does not change what `safeTrim` makes of it. */
  lemma SafeTrimPadded(a: string, t: string, b: string)
    requires AllWhitespace(a) && AllWhitespace(b) && IsTrimmed(t)
    ensures SafeTrim(Str(a + t + b)) == t
  {
    TrimPadded(a, t, b);
  }
}
