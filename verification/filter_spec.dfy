/**
 * FilterSpec: an immutable (column, operator, right-hand side) triple,
 * as the filter engine consumes it.
 */
module FilterSpecs {

  /** The ten comparison operators a filter can use. */
  datatype FilterType =
    | EQUALS
    | NOT_EQUALS
    | LESS
    | LEQ
    | GREATER
    | GEQ
    | RE_MATCH
    | NOT_RE_MATCH
    | CONTAINS
    | NOT_CONTAINS

  /** All final fields: a spec is a value and never changes once built. */
  datatype FilterSpec = FilterSpec(columnName: string, filterType: FilterType, rhs: string)

  /** The operators that test a regular expression and so compile `rhs` as a pattern. */
  predicate UsesPattern(t: FilterType) {
    t == RE_MATCH || t == NOT_RE_MATCH
  }
}
