/** Sequence helpers shared by the model: the first position of a value (what
    Python's `list.index` returns and `list.remove` deletes), and the
    subsequence order used to say "kept in their original relative order". */
module Seqs {

  /** The position of the first occurrence of `x` in `s`. */
  function FirstIndex<T(==)>(s: seq<T>, x: T): (i: nat)
    requires x in s
    ensures i < |s| && s[i] == x
    ensures x !in s[..i]
  {
    if s[0] == x then 0
    else
      var j := FirstIndex(s[1..], x);
      assert s[..j + 1] == [s[0]] + s[1..][..j];
      j + 1
  }

  /** Python's `list.remove(x)`: delete the first occurrence of `x`. */
  function RemoveFirst<T(==)>(s: seq<T>, x: T): (r: seq<T>)
    requires x in s
    ensures |r| == |s| - 1
    ensures multiset(r) == multiset(s) - multiset{x}
  {
    var i := FirstIndex(s, x);
    assert s == s[..i] + [x] + s[i + 1..];
    s[..i] + s[i + 1..]
  }

  /** The first `x` of `a + [x] + b` is the one after `a` when `a` has none. */
  lemma FirstIndexAfter<T>(a: seq<T>, x: T, b: seq<T>)
    requires x !in a
    ensures FirstIndex(a + [x] + b, x) == |a|
  {
    var s := a + [x] + b;
    assert s[|a|] == x;
    assert forall k :: 0 <= k < |a| ==> s[k] == a[k];
  }

  /** Removing `x` from a sequence whose prefix `a` does not hold it removes
      exactly the copy that follows `a`. */
  lemma RemoveFirstAfter<T>(a: seq<T>, x: T, b: seq<T>)
    requires x !in a
    ensures RemoveFirst(a + [x] + b, x) == a + b
  {
    var s := a + [x] + b;
    FirstIndexAfter(a, x, b);
    assert s[..|a|] == a;
    assert s[|a| + 1..] == b;
  }

  /** Regrouping a concatenation, as a lemma: the loops that append to an
      archive call it instead of asserting the fact, which would leave the
      solver to search their whole context for it. */
  lemma AppendAssoc<T>(a: seq<T>, b: seq<T>, c: seq<T>)
    ensures (a + b) + c == a + (b + c)
  {
  }

  /** `a` can be obtained from `b` by deleting elements. */
  predicate IsSubseq<T(==)>(a: seq<T>, b: seq<T>)
    decreases |b|
  {
    a == [] ||
    (b != [] &&
     ((a[|a| - 1] == b[|b| - 1] && IsSubseq(a[..|a| - 1], b[..|b| - 1])) ||
      IsSubseq(a, b[..|b| - 1])))
  }

  lemma {:induction false} SubseqLength<T>(a: seq<T>, b: seq<T>)
    requires IsSubseq(a, b)
    ensures |a| <= |b|
    decreases |b|
  {
    if a != [] {
      if a[|a| - 1] == b[|b| - 1] && IsSubseq(a[..|a| - 1], b[..|b| - 1]) {
        SubseqLength(a[..|a| - 1], b[..|b| - 1]);
      } else {
        SubseqLength(a, b[..|b| - 1]);
      }
    }
  }

  lemma {:induction false} SubseqRefl<T>(a: seq<T>)
    ensures IsSubseq(a, a)
    decreases |a|
  {
    if a != [] {
      SubseqRefl(a[..|a| - 1]);
    }
  }

  /** Appending to the larger sequence keeps the relation. */
  lemma {:induction false} SubseqExtend<T>(a: seq<T>, b: seq<T>, c: seq<T>)
    requires IsSubseq(a, b)
    ensures IsSubseq(a, b + c)
    decreases |c|
  {
    if c != [] && a != [] {
      var c' := c[..|c| - 1];
      SubseqExtend(a, b, c');
      assert (b + c)[..|b + c| - 1] == b + c';
    } else if c == [] {
      assert b + c == b;
    }
  }

  /** The relation is compatible with concatenation. */
  lemma {:induction false} SubseqConcat<T>(a1: seq<T>, b1: seq<T>, a2: seq<T>, b2: seq<T>)
    requires IsSubseq(a1, b1) && IsSubseq(a2, b2)
    ensures IsSubseq(a1 + a2, b1 + b2)
    decreases |b2|
  {
    if a2 == [] {
      SubseqExtend(a1, b1, b2);
      assert a1 + a2 == a1;
    } else {
      assert b2 != [];
      var a2', b2' := a2[..|a2| - 1], b2[..|b2| - 1];
      assert (a1 + a2)[..|a1 + a2| - 1] == a1 + a2';
      assert (b1 + b2)[..|b1 + b2| - 1] == b1 + b2';
      if a2[|a2| - 1] == b2[|b2| - 1] && IsSubseq(a2', b2') {
        SubseqConcat(a1, b1, a2', b2');
      } else {
        SubseqConcat(a1, b1, a2, b2');
      }
    }
  }

  predicate StartsWith(s: string, prefix: string) {
    |prefix| <= |s| && s[..|prefix|] == prefix
  }

  predicate EndsWith(s: string, suffix: string) {
    |suffix| <= |s| && s[|s| - |suffix|..] == suffix
  }
}
