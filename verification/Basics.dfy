/** What several modules need. */
module Basics {

  datatype Option<+T> = None | Some(value: T)

  /** Some element of a set that is not empty. */
  lemma Pick<T>(s: set<T>) returns (x: T)
    requires |s| > 0
    ensures x in s
  {
    x :| x in s;
  }
}
