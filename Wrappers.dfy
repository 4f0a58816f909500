/** The optional value that stands for Python's `None` / "no match". */
module Wrappers {

  datatype Option<+T> = None | Some(value: T)

  /** Python's `if m: x = m` on a variable that keeps its earlier value otherwise. */
  function Latest<T>(found: Option<T>, prior: Option<T>): Option<T>
  {
    if found.Some? then found else prior
  }
}
