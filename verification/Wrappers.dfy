module Wrappers {
  /** A value that may be missing: a nil reference, an absent map entry, a failed call. */
  datatype Option<+T> = None | Some(value: T)

  /** A set that is not empty has a member. */
  lemma SomeMember<T(!new)>(s: set<T>) returns (x: T)
    requires s != {}
    ensures x in s
  {
    assert (forall y :: y !in s) ==> s == {};
    x :| x in s;
  }
}
