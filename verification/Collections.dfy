/** Small things that several modules share. */
module Collections {

  datatype Option<T> = None | Some(value: T)

  lemma AnyOf<T>(s: set<T>) returns (x: T)
    requires s != {}
    ensures x in s
  {
    x :| x in s;
  }
}
