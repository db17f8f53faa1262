/** Failure-compatible wrappers, and a set fact, shared by every module of the model. */
module Common {

  /** Python's `None`-or-value returns. */
  datatype Option<+T> = None | Some(value: T)

  /** A value, or the exception the Python code would raise instead. */
  datatype Result<+T, +E> = Ok(value: T) | Err(error: E)

  /** A set of positive size has a member, which `:|` can then pick. */
  lemma NonEmptyHasMember<T>(s: set<T>) returns (x: T)
    requires |s| > 0
    ensures x in s
  {
    if forall y :: y !in s {
      assert false;
    }
    x :| x in s;
  }
}
