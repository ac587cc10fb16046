/** Values that may be absent: the model's form of `undefined` and of a call that throws. */
module Options {
  datatype Option<+T> = None | Some(value: T)

  lemma SubsetSize<T>(a: set<T>, b: set<T>)
    requires a <= b
    ensures |a| <= |b|
  {
    assert b == a + (b - a);
  }
}
