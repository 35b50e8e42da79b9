# HeatMap: a verified model of SkyWalking's heat-map matrix builder

SkyWalking's OAP server keeps histogram-like metrics as sparse rows. Each row is a `DataTable`
from a bucket key to a count. `HeatMap` turns a list of such rows into a dense matrix for
rendering. It has a bucket axis (`buckets`) and one column of counts per row id (`values`).
Two mutating operations do the work:

- `buildColumn(id, rawdata, defaultValue)` decodes one row. On the first call it derives the
  bucket axis from the row's keys, sorted numerically: `[k_i, k_{i+1})` for every key but the
  last, and `[k_last, +inf)` for the last one. The axis is frozen after that call. Each call
  then appends a column with the row's counts, tagged with the row id.
- `fixMissingColumns(ids, defaultValue)` walks the expected ids. For each id that no column
  carries, it inserts an all-default column, one default per bucket, at the id's own index.

The model has one Dafny module per concern:

- `sequences.dfy` (`Sequences`): distinctness, subsequences and counting facts.
- `data_table.dfy` (`DataTable`): the part of `DataTable` that the heat map uses. A row is a
  `map<int, int>` from already-parsed keys to counts. `sortedKeys` with the numeric comparator
  is `SortedKeys(row.Keys)`.
- `buckets.dfy` (`Buckets`): `Bucket(min, max)`, where `max == None` means `infiniteMax()`.
  `Axis(keys)` is the axis derived from ascending keys.
- `columns.dfy` (`Columns`): `HeatMapColumn` as the value `Column(id, values)`, with
  `AddValue`. It also holds the specification functions `RowCounts`, `Densify` and `Filler`.
- `gap_fill.dfy` (`GapFill`): `FixMissing`, the effect of `fixMissingColumns` on the column
  list as a pure function, with the exceptions it can throw as an `Outcome`. It also holds the
  lemmas about that function.
- `heat_map.dfy` (`HeatMaps`): the class `HeatMap`, with fields `buckets: Option<seq<Bucket>>`
  and `values: seq<Column>`. Its methods are proved against the functions above. A small
  client (`ExampleFirstColumn`, `ExampleBuild`, `ExampleGapFill`) states, as verified client
  code, a worked example: a three-bucket axis, a later row with fewer keys, and gap filling for `b`.

Behaviour of the code worth noting (HeatMap.java:72-78, 91-93, 101):

- The column loop iterates the row's own sorted keys, not the frozen axis. A column therefore
  has one value per key of its row, and the `defaultValue` branch is never taken (lemma
  `DensifyOwnKeys`). A later row with keys `{0, 20}`, against the axis `[0,5) [5,20) [20,+inf)`,
  yields the column `3, 7`. It does not yield `3, 0, 7` (lemma `ExampleLaterRow`). Only the
  row that created the axis is guaranteed a column as long as the axis.
- When a filler column is needed but the axis is still absent, `fixMissingColumns` throws a
  `NullPointerException`. It does not insert a zero-length column. When the index passes the
  end of the list, `values.add(i, ...)` throws an `IndexOutOfBoundsException`; duplicate
  expected ids can cause this (lemma `DuplicateIdsCanThrow`). Both are modelled as `Threw(...)`
  outcomes, and `values` keeps the insertions made before the throw.
- A missing id is searched for anywhere in the list, but the filler is inserted at the literal
  index. Columns that start out of the expected order stay out of it
  (`OutOfOrderColumnsStayOutOfOrder`). The result matches the expected order when the existing
  columns already follow it (`FixInRequestedOrder`).

`FixFrom` and `FixMissing` (`gap_fill.dfy`) specify `fixMissingColumns` line by line
(HeatMap.java:83-95). `Insert` is `List.add(i, c)`, and `IdsOf` lists the column ids. They
carry no `ensures` of their own: their properties are the lemmas in the table.

## Model

| member | source | states |
|---|---|---|
| DataTable.SortedKeys | oap-server/server-core/src/main/java/org/apache/skywalking/oap/server/core/query/type/HeatMap.java:51-52 | The sorted keys contain every key of the row exactly once, and nothing else, in strictly ascending numeric order. |
| DataTable.SortedKeysIsTheAscendingEnumeration | oap-server/server-core/src/main/java/org/apache/skywalking/oap/server/core/query/type/HeatMap.java:51-52 | Any strictly increasing listing of exactly the row's keys is the sorted key list, so the order is numeric and unique. |
| DataTable.KeyRank | oap-server/server-core/src/main/java/org/apache/skywalking/oap/server/core/query/type/HeatMap.java:51-52 | A key's position in the sorted keys is the number of row keys smaller than it. |
| Buckets.Axis | oap-server/server-core/src/main/java/org/apache/skywalking/oap/server/core/query/type/HeatMap.java:54-67 | There is one bucket per sorted key, and an empty row gives an empty axis. |
| Buckets.AxisAt | oap-server/server-core/src/main/java/org/apache/skywalking/oap/server/core/query/type/HeatMap.java:55-66 | Bucket `j` is `[k_j, k_{j+1})`. The bucket of the last key is `[k_last, +inf)`. |
| Buckets.AxisContiguous | oap-server/server-core/src/main/java/org/apache/skywalking/oap/server/core/query/type/HeatMap.java:55-66 | Each bucket's max is the next bucket's min, and only the last bucket is unbounded. The mins give back the keys. |
| Buckets.AxisOfMins | oap-server/server-core/src/main/java/org/apache/skywalking/oap/server/core/query/type/HeatMap.java:55-66 | Conversely, every contiguous bucket list with an unbounded last bucket is the axis of its own mins. |
| Buckets.AxisOrdered | oap-server/server-core/src/main/java/org/apache/skywalking/oap/server/core/query/type/HeatMap.java:51-66 | Built from sorted keys, the mins strictly increase and every bounded bucket has `min < max`. |
| Buckets.ThreeKeyAxis | oap-server/server-core/src/main/java/org/apache/skywalking/oap/server/core/query/type/HeatMap.java:51-66 | Keys 0, 5 and 20 give `[0,5) [5,20) [20,+inf)`. |
| Buckets.TwoKeyAxis | oap-server/server-core/src/main/java/org/apache/skywalking/oap/server/core/query/type/HeatMap.java:51-66 | Keys 2 and 10 give `[2,10) [10,+inf)`. String keys are abstracted to parsed integers, so numeric ordering is built into the model rather than shown by this lemma. |
| Columns.Column.AddValue | oap-server/server-core/src/main/java/org/apache/skywalking/oap/server/core/query/type/HeatMap.java:113-115 | `addValue` keeps the id and the earlier values and puts the new value last. |
| Columns.RowCounts | oap-server/server-core/src/main/java/org/apache/skywalking/oap/server/core/query/type/HeatMap.java:72-78 | A built column has exactly one value per key of its own row. |
| Columns.RowCountsRank | oap-server/server-core/src/main/java/org/apache/skywalking/oap/server/core/query/type/HeatMap.java:72-78 | The count of key `x` sits at the position equal to the number of the row's keys below `x`. |
| Columns.Densify | oap-server/server-core/src/main/java/org/apache/skywalking/oap/server/core/query/type/HeatMap.java:72-78 | Looking up a key list gives one value per listed key. |
| Columns.DensifyOwnKeys | oap-server/server-core/src/main/java/org/apache/skywalking/oap/server/core/query/type/HeatMap.java:72-77 | Over the row's own sorted keys the default branch is never taken: the result is the row's counts, whatever the default. |
| Columns.Filler | oap-server/server-core/src/main/java/org/apache/skywalking/oap/server/core/query/type/HeatMap.java:98-105 | A filler column has the expected id, one value per bucket, and every value equal to the default. |
| GapFill.IdsOfInsert | oap-server/server-core/src/main/java/org/apache/skywalking/oap/server/core/query/type/HeatMap.java:93 | Inserting at index `i` places the new id at `i` and shifts the later ids right. |
| GapFill.FixFromCovers | oap-server/server-core/src/main/java/org/apache/skywalking/oap/server/core/query/type/HeatMap.java:83-95 | From any point of the pass, no id is lost. If the pass completes, every remaining expected id is present. |
| GapFill.FixFromKeeps | oap-server/server-core/src/main/java/org/apache/skywalking/oap/server/core/query/type/HeatMap.java:83-95 | From any point of the pass, the columns of already-present ids are unchanged and in order. Every other column is a filler for an expected id. |
| GapFill.FixOnlyInserts | oap-server/server-core/src/main/java/org/apache/skywalking/oap/server/core/query/type/HeatMap.java:82-95 | The existing columns survive unmodified and in the same relative order. Every added column is a filler for an expected id. After a completed pass, every expected id has a column. |
| GapFill.FixFromNoOp | oap-server/server-core/src/main/java/org/apache/skywalking/oap/server/core/query/type/HeatMap.java:83-93 | If the remaining expected ids are all present, the rest of the pass changes nothing. |
| GapFill.FixNoOpWhenAllPresent | oap-server/server-core/src/main/java/org/apache/skywalking/oap/server/core/query/type/HeatMap.java:82-95 | If every expected id already has a column, the list is left unchanged and the pass completes. |
| GapFill.FixIdempotent | oap-server/server-core/src/main/java/org/apache/skywalking/oap/server/core/query/type/HeatMap.java:82-95 | After a completed pass, a second pass with the same ids is a no-op. |
| GapFill.FixFromCompletes | oap-server/server-core/src/main/java/org/apache/skywalking/oap/server/core/query/type/HeatMap.java:83-93 | With distinct ids, once all earlier ids are present the list is long enough for every later insertion. |
| GapFill.FixDistinctCompletes | oap-server/server-core/src/main/java/org/apache/skywalking/oap/server/core/query/type/HeatMap.java:82-95 | With distinct expected ids and an existing axis, the pass never throws. |
| GapFill.FixFromOrdered | oap-server/server-core/src/main/java/org/apache/skywalking/oap/server/core/query/type/HeatMap.java:83-95 | Suppose the ids agree with the expected ids up to `i` and the rest follow the expected order. Then the pass ends with the expected id list. |
| GapFill.FixInRequestedOrder | oap-server/server-core/src/main/java/org/apache/skywalking/oap/server/core/query/type/HeatMap.java:82-95 | If the existing columns follow the order of distinct expected ids, the result has exactly one column per expected id, in the expected order. |
| GapFill.DuplicateIdsCanThrow | oap-server/server-core/src/main/java/org/apache/skywalking/oap/server/core/query/type/HeatMap.java:91-93 | The expected ids `a, a, b` on an empty list make `add(2, ...)` run past a one-element list. |
| GapFill.OutOfOrderColumnsStayOutOfOrder | oap-server/server-core/src/main/java/org/apache/skywalking/oap/server/core/query/type/HeatMap.java:86-93 | Columns `c, a` with the expected ids `a, b, c` end as `c, b, a`. |
| HeatMaps.ColumnFor | oap-server/server-core/src/main/java/org/apache/skywalking/oap/server/core/query/type/HeatMap.java:70-78 | The `addValue` loop yields, for each key in turn, the row's count, or the default where the row lacks the key. |
| HeatMaps.HeatMap.constructor | oap-server/server-core/src/main/java/org/apache/skywalking/oap/server/core/query/type/HeatMap.java:35-36 | A new heat map has no columns and no axis. |
| HeatMaps.HeatMap.AddBucket | oap-server/server-core/src/main/java/org/apache/skywalking/oap/server/core/query/type/HeatMap.java:38-40 | Appends one bucket to the axis and leaves the columns unchanged. |
| HeatMaps.HeatMap.InitBuckets | oap-server/server-core/src/main/java/org/apache/skywalking/oap/server/core/query/type/HeatMap.java:53-67 | The lazy initialisation leaves the axis equal to `Axis(sortedKeys)` and the columns unchanged. |
| HeatMaps.HeatMap.BuildColumn | oap-server/server-core/src/main/java/org/apache/skywalking/oap/server/core/query/type/HeatMap.java:48-80 | With no axis yet, the axis becomes `Axis(SortedKeys(row))`; otherwise it is unchanged. Exactly one column is appended after the unchanged earlier ones, holding the row's counts. Its length equals the bucket count when the call created the axis. |
| HeatMaps.HeatMap.FixMissingColumns | oap-server/server-core/src/main/java/org/apache/skywalking/oap/server/core/query/type/HeatMap.java:82-96 | The new column list and the outcome are `FixMissing` of the old list, and the axis is unchanged. |
| HeatMaps.HeatMap.BuildMissingColumn | oap-server/server-core/src/main/java/org/apache/skywalking/oap/server/core/query/type/HeatMap.java:98-105 | Gives a column with the id and one default value per bucket of the present axis. |
| HeatMaps.ExampleFirstRow | oap-server/server-core/src/main/java/org/apache/skywalking/oap/server/core/query/type/HeatMap.java:51-78 | The row `{0:3, 5:1, 20:7}` gives the axis `[0,5) [5,20) [20,+inf)` and the column `3, 1, 7`. |
| HeatMaps.ExampleLaterRow | oap-server/server-core/src/main/java/org/apache/skywalking/oap/server/core/query/type/HeatMap.java:72-78 | The row `{0:3, 20:7}` gives the column `3, 7`. A lookup along the frozen axis would have given `3, 0, 7`. |
| HeatMaps.ExampleFirstColumn | oap-server/server-core/src/main/java/org/apache/skywalking/oap/server/core/query/type/HeatMap.java:48-80 | On a new heat map, the first `buildColumn` creates the three-bucket axis and one column. |
| HeatMaps.ExampleBuild | oap-server/server-core/src/main/java/org/apache/skywalking/oap/server/core/query/type/HeatMap.java:48-80 | A second `buildColumn` with fewer keys keeps the axis and appends a two-value column. |

## Left out

- Decoding `rawdata` into a `DataTable` (HeatMap.java:49). The `DataTable` class is not part of this model. A row is given as a map from already-parsed integer keys to counts.
- `Integer.parseInt` failures on malformed keys, including keys outside the 32-bit `int` range (HeatMap.java:52, 59, 63-64). Keys are unbounded integers in the model, so no parse error can arise.
- Two keys that parse to the same integer (such as "5" and "05") cannot be written as a map, so the model does not cover them.
- The internals of `Bucket`, which are not part of this model. Only `min` and an optional `max` are kept, with `None` standing for `infiniteMax()`.
- Java `int`/`long` widths: counts, defaults and keys are unbounded integers. The source only copies them, so no arithmetic is lost.
- `HeatMapColumn` is modelled as a value. The model does not capture its mutable `List<Long>` being aliased or changed through the Lombok getters after it has been added.
- Lombok accessors and `ArrayList` initial capacities carry no behaviour.
- Thread safety: the class is unsynchronised, and the model is sequential.
- HeatMaps.HeatMap.AddBucket: requires an existing axis. Java throws a `NullPointerException` on a null list, and the model's only caller, `InitBuckets`, never makes that call.
- HeatMaps.HeatMap.BuildMissingColumn: requires an existing axis. Its only caller checks first and reports `Threw(NullPointer)` in place of the exception.
