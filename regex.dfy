/**
  The `regex` crate, which the classifier uses for its stored patterns, is a
  foreign library and is not modelled. An `Engine` stands for it: which pattern
  strings `Regex::new` accepts, and whether `is_match` finds a match of a
  (compiled) pattern anywhere in a text.
 */
module Regex {

  datatype Engine = Engine(compiles: string -> bool, isMatch: (string, string) -> bool)

  /** The error `Regex::new` returns; the model keeps only the offending pattern. */
  datatype Error = Invalid(pattern: string)
}
