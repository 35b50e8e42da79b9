/**
 * The part of `DataTable` (org.apache.skywalking.oap.server.core.analysis.metrics.DataTable) that the
 * heat map uses. A row is a finite map from its already-parsed integer keys to their counts; `hasKey`
 * is `k in row`, `get` is `row[k]`, and `sortedKeys` with the numeric comparator is `SortedKeys(row.Keys)`.
 */
module DataTable {
  import Sequences

  /** Every element is smaller than every element after it. */
  predicate StrictlyIncreasing(s: seq<int>) {
    forall i, j :: 0 <= i < j < |s| ==> s[i] < s[j]
  }

  /** A set without members is the empty set. */
  lemma EmptyIfNoMember(s: set<int>)
    requires forall y :: y !in s
    ensures s == {}
  {
    assert forall y :: y in s <==> y in {};
  }

  /** A non-empty set has a member. */
  lemma HasMember(s: set<int>)
    requires s != {}
    ensures exists x :: x in s
  {
    if forall y :: y !in s {
      EmptyIfNoMember(s);
    }
  }

  /** `m` is the least element of `s`. */
  predicate IsLeast(m: int, s: set<int>) {
    m in s && forall k :: k in s ==> m <= k
  }

  /** The least element of a non-empty finite set of integers, found by removing one member at a time. */
  ghost function Least(s: set<int>): (m: int)
    requires s != {}
    ensures IsLeast(m, s)
    decreases |s|
  {
    HasMember(s);
    var x :| x in s;
    var rest := s - {x};
    if |rest| == 0 then
      assert forall k :: k in s ==> k !in rest;
      x
    else
      var m := Least(rest);
      assert forall k :: k in s ==> k == x || k in rest;
      if x < m then x else m
  }

  /** The least key of a non-empty key set. */
  function MinKey(keys: set<int>): (m: int)
    requires keys != {}
    ensures IsLeast(m, keys)
  {
    assert IsLeast(Least(keys), keys);
    var m :| IsLeast(m, keys);
    m
  }

  /** The keys in ascending numeric order: each key exactly once, nothing else. */
  function SortedKeys(keys: set<int>): (r: seq<int>)
    ensures StrictlyIncreasing(r)
    ensures |r| == |keys|
    ensures forall k :: k in r <==> k in keys
    decreases |keys|
  {
    if keys == {} then []
    else
      var m := MinKey(keys);
      [m] + SortedKeys(keys - {m})
  }

  /** Two strictly increasing sequences with the same elements are equal. */
  lemma {:induction false} IncreasingUnique(a: seq<int>, b: seq<int>)
    requires StrictlyIncreasing(a) && StrictlyIncreasing(b)
    requires forall k :: k in a <==> k in b
    ensures a == b
    decreases |a|
  {
    assert a != [] ==> a[0] in a && a[0] in b;
    assert b != [] ==> b[0] in b && b[0] in a;
    if a != [] && b != [] {
      assert a[0] in b && b[0] in a;
      assert a[0] == b[0];
      forall k
        ensures k in a[1..] <==> k in b[1..]
      {
        assert k in a[1..] <==> k in a && k != a[0];
        assert k in b[1..] <==> k in b && k != b[0];
      }
      IncreasingUnique(a[1..], b[1..]);
    }
  }

  /** `SortedKeys` is the one ascending enumeration of the key set. */
  lemma SortedKeysIsTheAscendingEnumeration(keys: set<int>, s: seq<int>)
    requires StrictlyIncreasing(s)
    requires forall k :: k in s <==> k in keys
    ensures SortedKeys(keys) == s
  {
    IncreasingUnique(SortedKeys(keys), s);
  }

  /** In a strictly increasing sequence, exactly `j` elements are smaller than the one at index `j`. */
  lemma RankInIncreasing(s: seq<int>, j: int)
    requires StrictlyIncreasing(s) && 0 <= j < |s|
    ensures |set y | y in s && y < s[j]| == j
  {
    var prefix := s[..j];
    var smaller := set y | y in s && y < s[j];
    var listed := set y | y in prefix;
    forall y | y in smaller
      ensures y in listed
    {
      var i :| 0 <= i < |s| && s[i] == y;
      assert i < j;
      assert prefix[i] == y;
    }
    forall y | y in listed
      ensures y in smaller
    {
      var i :| 0 <= i < j && prefix[i] == y;
      assert s[i] == y;
    }
    assert forall y :: y in smaller <==> y in listed;
    assert smaller == listed;
    assert Sequences.Distinct(prefix);
    Sequences.CardOfElements(prefix);
  }

  /** The position of a key in `SortedKeys` is the number of keys smaller than it. */
  lemma KeyRank(keys: set<int>, x: int)
    requires x in keys
    ensures var p := |set y | y in keys && y < x|;
            p < |SortedKeys(keys)| && SortedKeys(keys)[p] == x
  {
    var s := SortedKeys(keys);
    assert x in s;
    var j :| 0 <= j < |s| && s[j] == x;
    RankInIncreasing(s, j);
    var fromKeys := set y | y in keys && y < x;
    var fromSeq := set y | y in s && y < x;
    assert forall y :: y in fromKeys <==> y in fromSeq;
    assert fromKeys == fromSeq;
  }
}
