/**
 * `HeatMap.HeatMapColumn`: one row of the heat map, its id and its values in bucket order.
 * Java widens each value to `long`; here values are unbounded integers.
 */
module Columns {
  import opened DataTable
  import opened Buckets

  datatype Column = Column(id: string, values: seq<int>) {
    /** `addValue`: the column with `v` added after its existing values; the id is kept. */
    function AddValue(v: int): (c: Column)
      ensures c.id == id
      ensures |c.values| == |values| + 1 && c.values[..|values|] == values && c.values[|values|] == v
    {
      Column(id, values + [v])
    }
  }

  /** The counts of a row, listed in ascending numeric key order. */
  function RowCounts(row: map<int, int>): (r: seq<int>)
    ensures |r| == |row|
  {
    var keys := SortedKeys(row.Keys);
    seq(|keys|, j requires 0 <= j < |keys| => row[keys[j]])
  }

  /** The count of key `x` sits at the position given by the number of smaller keys in the row. */
  lemma RowCountsRank(row: map<int, int>, x: int)
    requires x in row
    ensures var p := |set y | y in row && y < x|;
            p < |RowCounts(row)| && RowCounts(row)[p] == row[x]
  {
    KeyRank(row.Keys, x);
    var fromRow := set y | y in row && y < x;
    var fromKeys := set y | y in row.Keys && y < x;
    assert forall y :: y in fromRow <==> y in fromKeys;
    assert fromRow == fromKeys;
  }

  /** The values looked up for `keys` in `row`, `defaultValue` standing in for a key the row lacks. */
  function Densify(keys: seq<int>, row: map<int, int>, defaultValue: int): (r: seq<int>)
    ensures |r| == |keys|
  {
    seq(|keys|, j requires 0 <= j < |keys| => if keys[j] in row then row[keys[j]] else defaultValue)
  }

  /** Looked up over the row's own sorted keys, no default is ever used: the result is the row's counts. */
  lemma DensifyOwnKeys(row: map<int, int>, defaultValue: int)
    ensures Densify(SortedKeys(row.Keys), row, defaultValue) == RowCounts(row)
  {
    var keys := SortedKeys(row.Keys);
    assert forall j :: 0 <= j < |keys| ==> keys[j] in row;
  }

  /** The all-default column `buildMissingColumn` produces: one default value per bucket. */
  function Filler(id: string, buckets: seq<Bucket>, defaultValue: int): (c: Column)
    ensures c.id == id
    ensures |c.values| == |buckets|
    ensures forall j :: 0 <= j < |c.values| ==> c.values[j] == defaultValue
  {
    Column(id, seq(|buckets|, _ => defaultValue))
  }
}
