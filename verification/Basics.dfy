// Small things that several modules share.
module Basics {
  datatype Option<+T> = None | Some(value: T)

  /** Any element, as walking a Go map gives one. */
  method Pick<T(==)>(s: set<T>) returns (x: T)
    requires s != {}
    ensures x in s
  {
    x :| x in s;
  }

  /** The same for proofs. */
  lemma Member<T>(s: set<T>) returns (x: T)
    requires s != {}
    ensures x in s
  {
    x :| x in s;
  }
}
