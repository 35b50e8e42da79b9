/** Generic facts about sequences used by the heat-map model: distinctness and subsequences. */
module Sequences {

  /** No element occurs twice in `s`. */
  predicate Distinct<T(==)>(s: seq<T>) {
    forall i, j :: 0 <= i < j < |s| ==> s[i] != s[j]
  }

  /** `a` can be obtained from `b` by deleting elements (greedy left-to-right matching). */
  predicate IsSubseq<T(==)>(a: seq<T>, b: seq<T>)
    decreases |b|
  {
    if a == [] then true
    else if b == [] then false
    else if a[0] == b[0] then IsSubseq(a[1..], b[1..])
    else IsSubseq(a, b[1..])
  }

  /** A sequence is never shorter than the number of distinct values it holds. */
  lemma {:induction false} CardOfElements<T>(s: seq<T>)
    ensures |set x | x in s| <= |s|
    ensures Distinct(s) ==> |set x | x in s| == |s|
  {
    if s != [] {
      CardOfElements(s[1..]);
      assert (set x | x in s) == {s[0]} + (set x | x in s[1..]);
      if Distinct(s) {
        assert s[0] !in s[1..];
      }
    }
  }

  /** If the distinct elements of `s` all occur in `t`, then `t` is at least as long as `s`. */
  lemma DistinctIncluded<T>(s: seq<T>, t: seq<T>)
    requires Distinct(s)
    requires forall x :: x in s ==> x in t
    ensures |s| <= |t|
  {
    CardOfElements(s);
    CardOfElements(t);
    var a := set x | x in s;
    var b := set x | x in t;
    assert a <= b;
    assert b == a + (b - a);
    assert |b| == |a| + |b - a|;
  }

  /** Every element of a subsequence occurs in the sequence it was taken from. */
  lemma {:induction false} SubseqMembers<T>(a: seq<T>, b: seq<T>)
    requires IsSubseq(a, b)
    ensures forall x :: x in a ==> x in b
    decreases |b|
  {
    if a != [] && b != [] {
      if a[0] == b[0] {
        SubseqMembers(a[1..], b[1..]);
        assert forall x :: x in a ==> x == a[0] || x in a[1..];
      } else {
        SubseqMembers(a, b[1..]);
      }
    }
  }

  /** A subsequence whose source starts with a value that occurs nowhere later must start with it too. */
  lemma SubseqHead<T>(a: seq<T>, b: seq<T>)
    requires IsSubseq(a, b)
    requires b != [] && b[0] in a && b[0] !in b[1..]
    ensures a != [] && a[0] == b[0] && IsSubseq(a[1..], b[1..])
  {
    if a[0] != b[0] {
      SubseqMembers(a, b[1..]);
    }
  }
}
