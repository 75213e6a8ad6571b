/** Order-preserving selection from a sequence, shared by the filters of
    the siblings view and of the saved state. */
module Sequences {

  /** `a` is `b` with some elements left out and the others in order. */
  predicate SubseqOf<T(==)>(a: seq<T>, b: seq<T>)
    decreases |b|
  {
    a == [] || (b != [] && if a[0] == b[0] then SubseqOf(a[1..], b[1..]) else SubseqOf(a, b[1..]))
  }

  /** Putting the same element in front of both keeps a subsequence; so
      does putting one in front of the longer only, when the shorter does
      not start with it. */
  lemma SubseqCons<T>(h: T, t: seq<T>, r: seq<T>, kept: bool)
    requires SubseqOf(r, t)
    requires !kept ==> r == [] || r[0] != h
    ensures SubseqOf((if kept then [h] else []) + r, [h] + t)
  {
    var a, b := (if kept then [h] else []) + r, [h] + t;
    assert b[1..] == t;
    if kept {
      assert a[0] == h && a[1..] == r;
    } else {
      assert a == r;
    }
  }
}
