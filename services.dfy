/**
 * What the calculator takes from outside its own code: Foundation's number
 * parsing and `NumberFormatter`, and the `Expression` library's evaluator.
 * They are passed in as a value, so that every property proved about the
 * calculator holds for every behaviour these services may have.
 */
module Services {
  import opened Wrappers

  datatype Services = Services(
    /** `Double(s) != nil`: `s` parses as a 64-bit floating-point number. */
    parsesAsDouble: string -> bool,
    /** A `NumberFormatter` with `.decimal` style and at most ten fraction
        digits applied to `Double(s)`; `None` when `string(from:)` yields nil. */
    numberFormat: string -> Option<string>,
    /** `String(try Expression(e).evaluate())`; `None` when evaluation throws. */
    evaluate: string -> Option<string>
  )
}
