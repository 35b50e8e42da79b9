/**
 * `HeatMap`: the value distribution of a metric over a shared bucket axis, one column per row id.
 * `buckets` is null (`None`) until the first `buildColumn`; `values` is the list of columns.
 */
module HeatMaps {
  import opened DataTable
  import opened Buckets
  import opened Columns
  import opened GapFill
  import opened Sequences

  /**
   * The column for row `id`: `new HeatMapColumn()`, `setId(id)`, then one `addValue` per key of
   * `keys`, the row's count where the row has the key and `defaultValue` where it does not.
   */
  method ColumnFor(id: string, dataset: map<int, int>, keys: seq<int>, defaultValue: int)
    returns (column: Column)
    ensures column == Column(id, Densify(keys, dataset, defaultValue))
  {
    column := Column(id, []);
    for i := 0 to |keys|
      invariant column.id == id && |column.values| == i
      invariant forall j :: 0 <= j < i ==>
        column.values[j] == if keys[j] in dataset then dataset[keys[j]] else defaultValue
    {
      var key := keys[i];
      if key in dataset {
        column := column.AddValue(dataset[key]);
      } else {
        column := column.AddValue(defaultValue);
      }
    }
  }

  class HeatMap {
    var values: seq<Column>
    var buckets: Option<seq<Bucket>>

    constructor ()
      ensures values == [] && buckets == None
    {
      values := [];
      buckets := None;
    }

    /** `addBucket`: appends one bucket to an axis that exists (Java throws on a null axis). */
    method AddBucket(bucket: Bucket)
      requires buckets.Some?
      modifies this
      ensures buckets == Some(old(buckets).value + [bucket])
      ensures values == old(values)
    {
      buckets := Some(buckets.value + [bucket]);
    }

    /**
     * `buildColumn(id, rawdata, defaultValue)`, with `rawdata` already decoded into `dataset`.
     * The first call builds the axis from this row's sorted keys; later calls leave it as it is.
     * The column appended lists this row's own counts in ascending key order.
     */
    method BuildColumn(id: string, dataset: map<int, int>, defaultValue: int)
      modifies this
      ensures old(buckets).None? ==> buckets == Some(Axis(SortedKeys(dataset.Keys)))
      ensures old(buckets).Some? ==> buckets == old(buckets)
      ensures values == old(values) + [Column(id, RowCounts(dataset))]
      ensures old(buckets).None? ==> |values[|values| - 1].values| == |buckets.value|
    {
      var sortedKeys := SortedKeys(dataset.Keys);
      if buckets.None? {
        InitBuckets(sortedKeys);
      }

      var column := ColumnFor(id, dataset, sortedKeys, defaultValue);
      DensifyOwnKeys(dataset, defaultValue);
      values := values + [column];
    }

    /**
     * The lazy initialisation inside `buildColumn`: a new, empty bucket list, then one `addBucket` per
     * sorted key, `[k_i, k_{i+1})` for all but the last key and `[k_last, +inf)` for the last.
     */
    method InitBuckets(sortedKeys: seq<int>)
      requires buckets.None?
      modifies this
      ensures buckets == Some(Axis(sortedKeys))
      ensures values == old(values)
    {
      buckets := Some([]);
      for i := 0 to |sortedKeys|
        invariant buckets.Some? && buckets.value == Axis(sortedKeys)[..i]
        invariant values == old(values)
      {
        AxisAt(sortedKeys, i);
        if i == |sortedKeys| - 1 {
          AddBucket(Bucket(sortedKeys[i], None));
        } else {
          AddBucket(Bucket(sortedKeys[i], Some(sortedKeys[i + 1])));
        }
        assert Axis(sortedKeys)[..i + 1] == Axis(sortedKeys)[..i] + [Axis(sortedKeys)[i]];
      }
      assert Axis(sortedKeys)[..|sortedKeys|] == Axis(sortedKeys);
    }

    /**
     * `fixMissingColumns(ids, defaultValue)`: for each expected id missing from every column, inserts
     * an all-default column at the id's own index. The outcome reports the exception the Java code
     * would throw part-way, with `values` as it stood at that point.
     */
    method FixMissingColumns(ids: seq<string>, defaultValue: int) returns (outcome: Outcome)
      modifies this
      ensures buckets == old(buckets)
      ensures Fixed(values, outcome) == FixMissing(old(values), buckets, ids, defaultValue)
    {
      for i := 0 to |ids|
        invariant buckets == old(buckets)
        invariant FixFrom(values, buckets, ids, i, defaultValue) == FixMissing(old(values), buckets, ids, defaultValue)
      {
        var expectedId := ids[i];
        var found := false;
        for k := 0 to |values|
          invariant found <==> exists j :: 0 <= j < k && values[j].id == expectedId
        {
          if expectedId == values[k].id {
            found := true;
          }
        }
        assert found <==> expectedId in IdsOf(values);
        if !found {
          if buckets.None? {
            return Threw(NullPointer);
          }
          var emptyColumn := BuildMissingColumn(expectedId, defaultValue);
          if i > |values| {
            return Threw(IndexOutOfBounds(i, |values|));
          }
          values := Insert(values, i, emptyColumn);
        }
      }
      return Completed;
    }

    /** `buildMissingColumn`: a column for `id` holding the default once per bucket of the axis. */
    method BuildMissingColumn(id: string, defaultValue: int) returns (column: Column)
      requires buckets.Some?
      ensures column.id == id && |column.values| == |buckets.value|
      ensures forall j :: 0 <= j < |column.values| ==> column.values[j] == defaultValue
      ensures column == Filler(id, buckets.value, defaultValue)
    {
      column := Column(id, []);
      for k := 0 to |buckets.value|
        invariant column.id == id && |column.values| == k
        invariant forall j :: 0 <= j < k ==> column.values[j] == defaultValue
      {
        column := column.AddValue(defaultValue);
      }
    }
  }

  /** Row "a" of the example client below: keys 0, 5, 20 give the three-bucket axis and the column 3, 1, 7. */
  lemma ExampleFirstRow()
    ensures Axis(SortedKeys(map[0 := 3, 5 := 1, 20 := 7].Keys))
         == [Bucket(0, Some(5)), Bucket(5, Some(20)), Bucket(20, None)]
    ensures RowCounts(map[0 := 3, 5 := 1, 20 := 7]) == [3, 1, 7]
  {
    var row := map[0 := 3, 5 := 1, 20 := 7];
    assert forall k :: k in row.Keys <==> k in [0, 5, 20];
    SortedKeysIsTheAscendingEnumeration(row.Keys, [0, 5, 20]);
    assert Axis([0, 5, 20]) == [Bucket(0, Some(5))] + Axis([5, 20]);
  }

  /**
   * Row "c" of the example client below lacks key 5. Against the frozen axis the column iterates the row's own keys,
   * giving two values (3, 7); a lookup along the axis' lower bounds would have given 3, 0, 7.
   */
  lemma ExampleLaterRow()
    ensures RowCounts(map[0 := 3, 20 := 7]) == [3, 7]
    ensures Densify(Mins([Bucket(0, Some(5)), Bucket(5, Some(20)), Bucket(20, None)]), map[0 := 3, 20 := 7], 0)
         == [3, 0, 7]
  {
    var row := map[0 := 3, 20 := 7];
    assert forall k :: k in row.Keys <==> k in [0, 20];
    SortedKeysIsTheAscendingEnumeration(row.Keys, [0, 20]);
    assert Mins([Bucket(0, Some(5)), Bucket(5, Some(20)), Bucket(20, None)]) == [0, 5, 20];
  }

  /** The expected ids "a", "b", "c" are distinct and the built columns "a", "c" follow their order. */
  lemma ExampleExpectedIds()
    ensures Distinct(["a", "b", "c"])
    ensures IsSubseq(["a", "c"], ["a", "b", "c"])
  {
    assert ["a", "c"][1..] == ["c"] && ["a", "b", "c"][1..] == ["b", "c"] && ["b", "c"][1..] == ["c"];
    assert ["c"][1..] == [];
  }

  /** A client of the class, first step: the first row fixes the three-bucket axis. */
  method ExampleFirstColumn() returns (heatMap: HeatMap)
    ensures fresh(heatMap)
    ensures heatMap.buckets == Some([Bucket(0, Some(5)), Bucket(5, Some(20)), Bucket(20, None)])
    ensures heatMap.values == [Column("a", [3, 1, 7])]
  {
    ExampleFirstRow();
    heatMap := new HeatMap();
    heatMap.BuildColumn("a", map[0 := 3, 5 := 1, 20 := 7], 0);
  }

  /** Second step: a later row with fewer keys leaves the axis alone and yields a shorter column. */
  method ExampleBuild() returns (heatMap: HeatMap)
    ensures fresh(heatMap)
    ensures heatMap.buckets == Some([Bucket(0, Some(5)), Bucket(5, Some(20)), Bucket(20, None)])
    ensures heatMap.values == [Column("a", [3, 1, 7]), Column("c", [3, 7])]
  {
    heatMap := ExampleFirstColumn();
    ExampleLaterRow();
    heatMap.BuildColumn("c", map[0 := 3, 20 := 7], 0);
  }

  /**
   * Third step: gap filling with the expected ids "a", "b", "c" inserts an all-default column for "b"
   * between the two built columns.
   */
  method ExampleGapFill() {
    var heatMap := ExampleBuild();
    var axis := [Bucket(0, Some(5)), Bucket(5, Some(20)), Bucket(20, None)];
    var ids := ["a", "b", "c"];
    ExampleExpectedIds();
    var before := heatMap.values;
    assert IdsOf(before) == ["a", "c"];
    FixInRequestedOrder(before, heatMap.buckets, ids, 0);
    FixOnlyInserts(before, heatMap.buckets, ids, 0);
    var outcome := heatMap.FixMissingColumns(ids, 0);
    assert outcome == Completed;
    assert IdsOf(heatMap.values) == ids;
    assert heatMap.values[1] in heatMap.values && heatMap.values[1].id !in IdsOf(before);
    assert heatMap.values[1] == Filler("b", axis, 0);
    assert heatMap.values[1] == Column("b", [0, 0, 0]);
  }
}
