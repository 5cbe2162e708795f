/** Definitions shared by the checkers and the Hua Rong Dao models. */
module Common {
  /** The usual Some/None wrapper; it stands for a Python value that may be None. */
  datatype Option<+T> = None | Some(value: T)

  function Abs(x: int): nat { if x < 0 then -x else x }
}
