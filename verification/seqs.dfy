/** Order-preserving subsequences, used for list comprehensions that filter. */
module Seqs {

  /** `a` is obtained from `b` by deleting elements, keeping the order. */
  predicate IsSubseq<T(==)>(a: seq<T>, b: seq<T>)
    decreases |b|
  {
    if |a| == 0 then true
    else if |b| == 0 then false
    else if a[0] == b[0] then IsSubseq(a[1..], b[1..])
    else IsSubseq(a, b[1..])
  }

  /** Keeping a first element on both sides preserves the relation. */
  lemma SubseqCons<T>(x: T, a: seq<T>, b: seq<T>)
    requires IsSubseq(a, b)
    ensures IsSubseq([x] + a, [x] + b)
  {
    assert ([x] + a)[1..] == a;
    assert ([x] + b)[1..] == b;
  }

  /** Putting an extra element in front of the larger side preserves the relation. */
  lemma {:induction false} SubseqSkip<T>(x: T, a: seq<T>, b: seq<T>)
    requires IsSubseq(a, b)
    ensures IsSubseq(a, [x] + b)
    decreases |b|
  {
    assert ([x] + b)[1..] == b;
    if |a| > 0 && a[0] == x {
      // what is left to show: a[1..] is a subsequence of b
      if a[0] == b[0] {
        SubseqSkip(b[0], a[1..], b[1..]);
      } else {
        SubseqSkip(x, a, b[1..]);
        assert ([x] + b[1..])[1..] == b[1..];
        SubseqSkip(b[0], a[1..], b[1..]);
      }
      assert [b[0]] + b[1..] == b;
    }
  }

  /** Every sequence is a subsequence of itself. */
  lemma {:induction false} SubseqRefl<T>(a: seq<T>)
    ensures IsSubseq(a, a)
    decreases |a|
  {
    if |a| > 0 {
      SubseqRefl(a[1..]);
    }
  }

  /** Subsequences of the two halves combine into one of the concatenation. */
  lemma {:induction false} SubseqConcat<T>(a1: seq<T>, b1: seq<T>, a2: seq<T>, b2: seq<T>)
    requires IsSubseq(a1, b1) && IsSubseq(a2, b2)
    ensures IsSubseq(a1 + a2, b1 + b2)
    decreases |b1|
  {
    if |b1| == 0 {
      assert a1 == [];
      assert a1 + a2 == a2 && b1 + b2 == b2;
    } else if |a1| > 0 && a1[0] == b1[0] {
      SubseqConcat(a1[1..], b1[1..], a2, b2);
      SubseqCons(b1[0], a1[1..] + a2, b1[1..] + b2);
      assert [b1[0]] + (a1[1..] + a2) == a1 + a2;
      assert [b1[0]] + (b1[1..] + b2) == b1 + b2;
    } else {
      SubseqConcat(a1, b1[1..], a2, b2);
      SubseqSkip(b1[0], a1 + a2, b1[1..] + b2);
      assert [b1[0]] + (b1[1..] + b2) == b1 + b2;
    }
  }

  /** The relation is transitive. */
  lemma {:induction false} SubseqTrans<T>(a: seq<T>, b: seq<T>, c: seq<T>)
    requires IsSubseq(a, b) && IsSubseq(b, c)
    ensures IsSubseq(a, c)
    decreases |c|
  {
    if |a| > 0 {
      assert |b| > 0 && |c| > 0;
      if b[0] != c[0] {
        SubseqTrans(a, b, c[1..]);
        SubseqSkip(c[0], a, c[1..]);
        assert [c[0]] + c[1..] == c;
      } else if a[0] == b[0] {
        SubseqTrans(a[1..], b[1..], c[1..]);
        SubseqCons(c[0], a[1..], c[1..]);
        assert [c[0]] + a[1..] == a && [c[0]] + c[1..] == c;
      } else {
        SubseqTrans(a, b[1..], c[1..]);
        SubseqSkip(c[0], a, c[1..]);
        assert [c[0]] + c[1..] == c;
      }
    }
  }

  /** Elements of a subsequence are elements of the whole. */
  lemma {:induction false} SubseqMembers<T>(a: seq<T>, b: seq<T>)
    requires IsSubseq(a, b)
    ensures forall x :: x in a ==> x in b
    decreases |b|
  {
    if |a| > 0 {
      if a[0] == b[0] {
        SubseqMembers(a[1..], b[1..]);
        assert a == [a[0]] + a[1..];
      } else {
        SubseqMembers(a, b[1..]);
      }
    }
  }
}
