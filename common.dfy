/** Small helpers shared by every module of the editor model. */
module Common {

  /** A value that may be absent; `None` stands for a Python exception
      (an `IndexError` or a failed `assert`) that ends the editor. */
  datatype Option<+T> = None | Some(value: T)

  function Min(a: int, b: int): int { if a <= b then a else b }

  function Max(a: int, b: int): int { if a >= b then a else b }

  /** The distance between two integers. */
  function Dist(a: int, b: int): nat { if a <= b then b - a else a - b }
}
