module Wrappers {
  datatype Option<+T> = None | Some(value: T)

  /** Some element of a set. */
  method Pick<T(==)>(s: set<T>) returns (x: T)
    requires s != {}
    ensures x in s
  {
    x :| x in s;
  }
}
