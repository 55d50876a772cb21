/** The errors thrown by the modelled code, one constructor per `throw` site. */
module Errors {

  /** The three modifier categories the modifier parser implements. */
  datatype Category = Exploding | Compounding | Penetrating

  datatype Error =
      /** A non-empty remainder no modifier token consumed. */
    | InvalidModifier(expr: string, remainder: string)
      /** A category parsed twice; `current` is its rendering, `parsed` the second token. */
    | AlreadySet(category: Category, current: string, parsed: string)
      /** The "shouldn't be possible" branch: a marker other than "!", "!!", "!p" (in practice "!P"). */
    | UnexpectedMarker(marker: string)
      /** A dice expression that does not have the shape count `d` faces modifiers. */
    | InvalidExpression(expr: string)
      /** A count or face number outside `0..max`; `param` is the name the message gives. */
    | OutOfRange(param: string, max: int, got: int)
      /** Parentheses that do not balance. */
    | UnmatchedParenthesis
}
