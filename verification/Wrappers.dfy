/** Small things that several modules need: a value that may be missing, and set sizes. */
module Wrappers {

  datatype Option<T> = None | Some(value: T)

  lemma Smaller<T>(a: set<T>, b: set<T>)
    requires a <= b
    ensures |a| <= |b|
    ensures a != b ==> |a| < |b|
  {
    assert b == a + (b - a);
  }
}
