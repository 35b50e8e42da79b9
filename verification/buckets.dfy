/**
 * The bucket axis of a heat map. A `Bucket` (org.apache.skywalking.oap.server.core.query.type.Bucket)
 * is the range `[min, max)`; `max == None` stands for `infiniteMax()`, the unbounded last bucket.
 */
module Buckets {
  import opened DataTable

  datatype Option<T> = None | Some(value: T)

  datatype Bucket = Bucket(min: int, max: Option<int>)

  /**
   * The axis derived from ascending keys `k_0 .. k_n`: `[k_i, k_{i+1})` for every key but the last,
   * and `[k_n, +inf)` for the last one.
   */
  function Axis(keys: seq<int>): (r: seq<Bucket>)
    ensures |r| == |keys|
    decreases |keys|
  {
    if |keys| == 0 then []
    else if |keys| == 1 then [Bucket(keys[0], None)]
    else [Bucket(keys[0], Some(keys[1]))] + Axis(keys[1..])
  }

  /** The lower bounds of the buckets, in axis order. */
  function Mins(bs: seq<Bucket>): (r: seq<int>)
    ensures |r| == |bs| && forall j :: 0 <= j < |bs| ==> r[j] == bs[j].min
  {
    seq(|bs|, j requires 0 <= j < |bs| => bs[j].min)
  }

  /** Each bucket ends where the next one starts, and only the last one is unbounded. */
  predicate Contiguous(bs: seq<Bucket>) {
    && (forall j :: 0 <= j < |bs| - 1 ==> bs[j].max == Some(bs[j + 1].min))
    && (|bs| > 0 ==> bs[|bs| - 1].max == None)
  }

  /** Bucket `j` of the axis starts at key `j` and ends at key `j + 1`, or is unbounded if `j` is last. */
  lemma {:induction false} AxisAt(keys: seq<int>, j: int)
    requires 0 <= j < |keys|
    ensures Axis(keys)[j] == Bucket(keys[j], if j + 1 < |keys| then Some(keys[j + 1]) else None)
    decreases |keys|
  {
    if j > 0 {
      AxisAt(keys[1..], j - 1);
    }
  }

  /** The axis is contiguous and its lower bounds give back the keys it was built from. */
  lemma AxisContiguous(keys: seq<int>)
    ensures Contiguous(Axis(keys))
    ensures Mins(Axis(keys)) == keys
  {
    var r := Axis(keys);
    forall j | 0 <= j < |keys|
      ensures r[j] == Bucket(keys[j], if j + 1 < |keys| then Some(keys[j + 1]) else None)
    {
      AxisAt(keys, j);
    }
  }

  /** Conversely, every contiguous bucket list is the axis of its own lower bounds. */
  lemma AxisOfMins(bs: seq<Bucket>)
    requires Contiguous(bs)
    ensures Axis(Mins(bs)) == bs
  {
    var keys := Mins(bs);
    forall j | 0 <= j < |bs|
      ensures Axis(keys)[j] == bs[j]
    {
      AxisAt(keys, j);
    }
  }

  /**
   * Built from strictly increasing keys (ordered numerically), the lower bounds strictly increase and
   * every bounded bucket is non-empty: `min < max`.
   */
  lemma AxisOrdered(keys: seq<int>)
    requires StrictlyIncreasing(keys)
    ensures StrictlyIncreasing(Mins(Axis(keys)))
    ensures forall b :: b in Axis(keys) && b.max.Some? ==> b.min < b.max.value
  {
    AxisContiguous(keys);
    var r := Axis(keys);
    forall b | b in r && b.max.Some?
      ensures b.min < b.max.value
    {
      var j :| 0 <= j < |r| && r[j] == b;
      AxisAt(keys, j);
    }
  }

  /** Keys 0, 5 and 20 give the buckets [0, 5), [5, 20) and [20, +inf). */
  lemma ThreeKeyAxis()
    ensures Axis(SortedKeys({20, 0, 5})) == [Bucket(0, Some(5)), Bucket(5, Some(20)), Bucket(20, None)]
  {
    SortedKeysIsTheAscendingEnumeration({20, 0, 5}, [0, 5, 20]);
  }

  /**
   * Keys 2 and 10 give [2, 10) and [10, +inf). Keys are parsed integers here, so the numeric order
   * of the sorted keys is part of the abstraction rather than something this lemma demonstrates.
   */
  lemma TwoKeyAxis()
    ensures Axis(SortedKeys({10, 2})) == [Bucket(2, Some(10)), Bucket(10, None)]
  {
    SortedKeysIsTheAscendingEnumeration({10, 2}, [2, 10]);
  }
}
