/** Types and facts that several of the models share. */
module Common {

  const TWO_TO_THE_64: int := 0x1_0000_0000_0000_0000

  type uint64 = n: int | 0 <= n < TWO_TO_THE_64
  type byte = b: int | 0 <= b < 256

  datatype Option<+T> = None | Some(value: T)

  lemma SubsetSize<T>(a: set<T>, b: set<T>)
    requires a <= b
    ensures |a| <= |b|
  {
    assert |b| == |a| + |b - a| by {
      assert b == a + (b - a);
    }
  }
}
