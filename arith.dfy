/** Integer helpers shared by the chunker and the ingest loop: Python's `min` and `max`. */
module Arith {
  function Min(a: int, b: int): int { if a <= b then a else b }
  function Max(a: int, b: int): int { if a >= b then a else b }
}
