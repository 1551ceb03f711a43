/** Facts about subsequences: what `Array.prototype.filter` returns is a
    subsequence of its input, keeping the input's relative order. */
module Seqs {

  /** `a` can be obtained from `b` by deleting elements (order kept). */
  ghost predicate SubseqOf<T>(a: seq<T>, b: seq<T>)
    decreases |b|
  {
    if |a| == 0 then true
    else if |b| == 0 then false
    else (a[0] == b[0] && SubseqOf(a[1..], b[1..])) || SubseqOf(a, b[1..])
  }

  lemma {:induction false} SubseqTrans<T>(a: seq<T>, b: seq<T>, c: seq<T>)
    requires SubseqOf(a, b) && SubseqOf(b, c)
    ensures SubseqOf(a, c)
    decreases |c|
  {
    if |a| == 0 {
    } else if b[0] == c[0] && SubseqOf(b[1..], c[1..]) {
      if a[0] == b[0] && SubseqOf(a[1..], b[1..]) {
        SubseqTrans(a[1..], b[1..], c[1..]);
      } else {
        SubseqTrans(a, b[1..], c[1..]);
      }
    } else {
      SubseqTrans(a, b, c[1..]);
    }
  }

  /** A subsequence draws its elements from the original, never more often
      than they occur there, so it is never longer. */
  lemma {:induction false} SubseqDrawsFrom<T>(a: seq<T>, b: seq<T>)
    requires SubseqOf(a, b)
    ensures multiset(a) <= multiset(b)
    ensures |a| <= |b|
    decreases |b|
  {
    if |a| == 0 {
    } else if a[0] == b[0] && SubseqOf(a[1..], b[1..]) {
      SubseqDrawsFrom(a[1..], b[1..]);
      assert a == [a[0]] + a[1..];
      assert b == [b[0]] + b[1..];
    } else {
      SubseqDrawsFrom(a, b[1..]);
      assert b == [b[0]] + b[1..];
    }
    assert |multiset(a)| == |a| && |multiset(b)| == |b|;
  }
}
