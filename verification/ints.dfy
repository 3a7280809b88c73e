/** Integer helpers shared by the list commands and the service's bounds. */
module Ints {

  function Min(a: int, b: int): int { if a <= b then a else b }

  function Max(a: int, b: int): int { if a <= b then b else a }
}
