/**
 * Optional values (a nullable column, a query that finds no row) and the
 * integer helpers Min (listing bounds) and Max (next row key).
 */
module Wrappers {

  datatype Option<+T> = None | Some(value: T)

  function Min(a: int, b: int): int { if a <= b then a else b }

  function Max(a: int, b: int): int { if a <= b then b else a }
}
