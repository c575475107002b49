/** The larger and the smaller of two integers, shared by the models that clamp or intersect. */
module Order {

  function Max(a: int, b: int): int {
    if a < b then b else a
  }

  function Min(a: int, b: int): int {
    if a < b then a else b
  }
}
