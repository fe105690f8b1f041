/**
 * The part of the lexer's output the membership rule looks at: a token's
 * type, out of a small closed set, and its span in the source.
 */
module Tokens {

  datatype SourceType =
    | Relation      // relational keywords such as `in` and `not in`
    | Operator
    | Identifier
    | Keyword
    | Other

  /** A token of type `kind` covering the source characters `[start, stop)`. */
  datatype SourceToken = SourceToken(kind: SourceType, start: nat, stop: nat)
}
