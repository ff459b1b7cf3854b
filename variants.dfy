/** The dynamically typed values that Qt passes around as QVariant. */
module Variants {

  /** A QVariant. `Invalid` is the default-constructed QVariant(), which is
      what lookups return when there is nothing to return; the other
      constructors cover the kinds of value the model needs. */
  datatype Variant =
    | Invalid
    | Bool(b: bool)
    | Int(i: int)
    | Str(s: string)
    | List(items: seq<Variant>)
  {
    /** QVariant::isValid(). */
    predicate IsValid() { !Invalid? }
  }
}
