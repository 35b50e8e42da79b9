/**
 * What `HeatMap.fixMissingColumns` does to the column list, as a function of the list before the call.
 * For each expected id in turn (index `i`), if no column has that id, an all-default column for it is
 * inserted at index `i` (`ArrayList.add(i, ...)`). The two exceptions the Java code can raise on the way
 * are results here, together with the columns as they stood when it was raised.
 */
module GapFill {
  import opened Sequences
  import opened Buckets
  import opened Columns

  datatype Fault =
    | NullPointer                            // `buckets` is still null when a filler column is needed
    | IndexOutOfBounds(index: nat, size: nat) // `values.add(index, ...)` with `index > size`

  datatype Outcome = Completed | Threw(fault: Fault)

  datatype Fixed = Fixed(columns: seq<Column>, outcome: Outcome)

  /** The ids of the columns, in column order. */
  function IdsOf(cols: seq<Column>): (r: seq<string>)
    ensures |r| == |cols| && forall j :: 0 <= j < |cols| ==> r[j] == cols[j].id
  {
    seq(|cols|, j requires 0 <= j < |cols| => cols[j].id)
  }

  /** `List.add(i, c)`: `c` placed at index `i`, later columns shifted right by one. */
  function Insert(cols: seq<Column>, i: nat, c: Column): seq<Column>
    requires i <= |cols|
  {
    cols[..i] + [c] + cols[i..]
  }

  /** The ids after an insertion are the ids before it with the new id at index `i`. */
  lemma IdsOfInsert(cols: seq<Column>, i: nat, c: Column)
    requires i <= |cols|
    ensures IdsOf(Insert(cols, i, c)) == IdsOf(cols)[..i] + [c.id] + IdsOf(cols)[i..]
  {
  }

  /** The pass over `ids` from index `i` on, starting from the columns `cols`. */
  function FixFrom(cols: seq<Column>, buckets: Option<seq<Bucket>>, ids: seq<string>, i: nat,
                   defaultValue: int): Fixed
    decreases |ids| - i
  {
    if i >= |ids| then Fixed(cols, Completed)
    else if ids[i] in IdsOf(cols) then FixFrom(cols, buckets, ids, i + 1, defaultValue)
    else if buckets.None? then Fixed(cols, Threw(NullPointer))
    else if i > |cols| then Fixed(cols, Threw(IndexOutOfBounds(i, |cols|)))
    else FixFrom(Insert(cols, i, Filler(ids[i], buckets.value, defaultValue)), buckets, ids, i + 1,
                 defaultValue)
  }

  /** The whole of `fixMissingColumns(ids, defaultValue)`. */
  function FixMissing(cols: seq<Column>, buckets: Option<seq<Bucket>>, ids: seq<string>,
                      defaultValue: int): Fixed
  {
    FixFrom(cols, buckets, ids, 0, defaultValue)
  }

  /** The columns whose id occurs in `present`, in their original order. */
  function Keep(cols: seq<Column>, present: seq<string>): seq<Column>
    decreases |cols|
  {
    if cols == [] then []
    else (if cols[0].id in present then [cols[0]] else []) + Keep(cols[1..], present)
  }

  lemma {:induction false} KeepAppend(a: seq<Column>, b: seq<Column>, present: seq<string>)
    ensures Keep(a + b, present) == Keep(a, present) + Keep(b, present)
    decreases |a|
  {
    if a == [] {
      assert a + b == b;
    } else {
      assert (a + b)[0] == a[0];
      assert (a + b)[1..] == a[1..] + b;
      KeepAppend(a[1..], b, present);
    }
  }

  /** Inserting a column whose id is not in `present` does not change the columns kept. */
  lemma KeepSingle(c: Column, present: seq<string>)
    requires c.id !in present
    ensures Keep([c], present) == []
  {
    assert [c][1..] == [];
  }

  lemma KeepInsert(cols: seq<Column>, i: nat, c: Column, present: seq<string>)
    requires i <= |cols| && c.id !in present
    ensures Keep(Insert(cols, i, c), present) == Keep(cols, present)
  {
    var left, right := cols[..i], cols[i..];
    KeepSingle(c, present);
    KeepAppend(left, [c], present);
    assert Keep(left + [c], present) == Keep(left, present);
    KeepAppend(left + [c], right, present);
    assert Keep(left + [c] + right, present) == Keep(left, present) + Keep(right, present);
    KeepAppend(left, right, present);
    assert left + right == cols;
  }

  lemma {:induction false} KeepEverything(cols: seq<Column>, present: seq<string>)
    requires forall j :: 0 <= j < |cols| ==> cols[j].id in present
    ensures Keep(cols, present) == cols
    decreases |cols|
  {
    if cols != [] {
      KeepEverything(cols[1..], present);
    }
  }

  /** `c` is an all-default column for one of the expected ids, sized to the bucket axis. */
  predicate IsFillerFor(c: Column, buckets: Option<seq<Bucket>>, ids: seq<string>, defaultValue: int) {
    c.id in ids && buckets.Some? && c == Filler(c.id, buckets.value, defaultValue)
  }

  /** Ids are never lost; an uninterrupted pass leaves every id from `ids[i..]` present. */
  lemma {:induction false} FixFromCovers(cols: seq<Column>, buckets: Option<seq<Bucket>>, ids: seq<string>,
                                         i: nat, defaultValue: int)
    ensures var r := FixFrom(cols, buckets, ids, i, defaultValue);
            && (forall x :: x in IdsOf(cols) ==> x in IdsOf(r.columns))
            && (r.outcome == Completed ==> forall k :: i <= k < |ids| ==> ids[k] in IdsOf(r.columns))
    decreases |ids| - i
  {
    if i < |ids| {
      if ids[i] in IdsOf(cols) {
        FixFromCovers(cols, buckets, ids, i + 1, defaultValue);
      } else if buckets.Some? && i <= |cols| {
        var next := Insert(cols, i, Filler(ids[i], buckets.value, defaultValue));
        IdsOfInsert(cols, i, Filler(ids[i], buckets.value, defaultValue));
        assert forall x :: x in IdsOf(cols) ==> x in IdsOf(next);
        assert ids[i] in IdsOf(next);
        FixFromCovers(next, buckets, ids, i + 1, defaultValue);
      }
    }
  }

  /**
   * Restricted to the ids in `present` (all of which are already there), the column list does not
   * change, and every column outside `present` is a filler column.
   */
  lemma {:induction false} FixFromKeeps(cols: seq<Column>, buckets: Option<seq<Bucket>>, ids: seq<string>,
                                        i: nat, defaultValue: int, present: seq<string>)
    requires forall x :: x in present ==> x in IdsOf(cols)
    requires forall c :: c in cols && c.id !in present ==> IsFillerFor(c, buckets, ids, defaultValue)
    ensures var r := FixFrom(cols, buckets, ids, i, defaultValue).columns;
            && Keep(r, present) == Keep(cols, present)
            && (forall c :: c in r && c.id !in present ==> IsFillerFor(c, buckets, ids, defaultValue))
    decreases |ids| - i
  {
    if i < |ids| {
      if ids[i] in IdsOf(cols) {
        FixFromKeeps(cols, buckets, ids, i + 1, defaultValue, present);
      } else if buckets.Some? && i <= |cols| {
        var filler := Filler(ids[i], buckets.value, defaultValue);
        var next := Insert(cols, i, filler);
        IdsOfInsert(cols, i, filler);
        KeepInsert(cols, i, filler, present);
        forall c | c in next && c.id !in present
          ensures IsFillerFor(c, buckets, ids, defaultValue)
        {
          if c != filler {
            assert c in cols;
          }
        }
        FixFromKeeps(next, buckets, ids, i + 1, defaultValue, present);
      }
    }
  }

  /**
   * `fixMissingColumns` only inserts: the columns that were there stay, unmodified and in the same
   * relative order; every other column is an all-default column for an expected id; if the pass
   * completes, every expected id is the id of some column.
   */
  lemma FixOnlyInserts(cols: seq<Column>, buckets: Option<seq<Bucket>>, ids: seq<string>, defaultValue: int)
    ensures var r := FixMissing(cols, buckets, ids, defaultValue);
            && Keep(r.columns, IdsOf(cols)) == cols
            && (forall c :: c in r.columns && c.id !in IdsOf(cols) ==> IsFillerFor(c, buckets, ids, defaultValue))
            && (forall x :: x in IdsOf(cols) ==> x in IdsOf(r.columns))
            && (r.outcome == Completed ==> forall x :: x in ids ==> x in IdsOf(r.columns))
  {
    FixFromKeeps(cols, buckets, ids, 0, defaultValue, IdsOf(cols));
    KeepEverything(cols, IdsOf(cols));
    FixFromCovers(cols, buckets, ids, 0, defaultValue);
  }

  /** If the ids from `i` on are all present, the rest of the pass changes nothing. */
  lemma {:induction false} FixFromNoOp(cols: seq<Column>, buckets: Option<seq<Bucket>>, ids: seq<string>,
                                       i: nat, defaultValue: int)
    requires forall k :: i <= k < |ids| ==> ids[k] in IdsOf(cols)
    ensures FixFrom(cols, buckets, ids, i, defaultValue) == Fixed(cols, Completed)
    decreases |ids| - i
  {
    if i < |ids| {
      FixFromNoOp(cols, buckets, ids, i + 1, defaultValue);
    }
  }

  /** When every expected id already has a column, `fixMissingColumns` leaves the list unchanged. */
  lemma FixNoOpWhenAllPresent(cols: seq<Column>, buckets: Option<seq<Bucket>>, ids: seq<string>,
                              defaultValue: int)
    requires forall x :: x in ids ==> x in IdsOf(cols)
    ensures FixMissing(cols, buckets, ids, defaultValue) == Fixed(cols, Completed)
  {
    FixFromNoOp(cols, buckets, ids, 0, defaultValue);
  }

  /** A second call with the same ids after a completed one is a no-op. */
  lemma FixIdempotent(cols: seq<Column>, buckets: Option<seq<Bucket>>, ids: seq<string>, defaultValue: int)
    requires FixMissing(cols, buckets, ids, defaultValue).outcome == Completed
    ensures var r := FixMissing(cols, buckets, ids, defaultValue).columns;
            FixMissing(r, buckets, ids, defaultValue) == Fixed(r, Completed)
  {
    FixOnlyInserts(cols, buckets, ids, defaultValue);
    var r := FixMissing(cols, buckets, ids, defaultValue).columns;
    FixNoOpWhenAllPresent(r, buckets, ids, defaultValue);
  }

  /** With distinct ids, once `ids[..i]` are all present the list has at least `i` columns, so no insertion fails. */
  lemma {:induction false} FixFromCompletes(cols: seq<Column>, buckets: Option<seq<Bucket>>, ids: seq<string>,
                                            i: nat, defaultValue: int)
    requires Distinct(ids) && buckets.Some? && i <= |ids|
    requires forall k :: 0 <= k < i ==> ids[k] in IdsOf(cols)
    ensures FixFrom(cols, buckets, ids, i, defaultValue).outcome == Completed
    decreases |ids| - i
  {
    if i < |ids| {
      if ids[i] in IdsOf(cols) {
        FixFromCompletes(cols, buckets, ids, i + 1, defaultValue);
      } else {
        assert Distinct(ids[..i]);
        DistinctIncluded(ids[..i], IdsOf(cols));
        var filler := Filler(ids[i], buckets.value, defaultValue);
        IdsOfInsert(cols, i, filler);
        var next := Insert(cols, i, filler);
        assert forall x :: x in IdsOf(cols) ==> x in IdsOf(next);
        assert ids[i] in IdsOf(next);
        FixFromCompletes(next, buckets, ids, i + 1, defaultValue);
      }
    }
  }

  /** With distinct expected ids and an existing axis, `fixMissingColumns` never throws. */
  lemma FixDistinctCompletes(cols: seq<Column>, buckets: Option<seq<Bucket>>, ids: seq<string>,
                             defaultValue: int)
    requires Distinct(ids) && buckets.Some?
    ensures FixMissing(cols, buckets, ids, defaultValue).outcome == Completed
  {
    FixFromCompletes(cols, buckets, ids, 0, defaultValue);
  }

  /**
   * While the column ids agree with `ids` up to `i` and the rest of them follow `ids[i..]` in order,
   * the pass ends with exactly one column per expected id, in the expected order.
   */
  lemma {:induction false} FixFromOrdered(cols: seq<Column>, buckets: Option<seq<Bucket>>, ids: seq<string>,
                                          i: nat, defaultValue: int)
    requires Distinct(ids) && buckets.Some? && i <= |ids| && i <= |cols|
    requires IdsOf(cols)[..i] == ids[..i]
    requires IsSubseq(IdsOf(cols)[i..], ids[i..])
    ensures var r := FixFrom(cols, buckets, ids, i, defaultValue);
            r.outcome == Completed && IdsOf(r.columns) == ids
    decreases |ids| - i
  {
    var names := IdsOf(cols);
    if i == |ids| {
      assert ids[i..] == [];
      assert names[i..] == [];
      assert names == names[..i] + names[i..];
      assert ids == ids[..i];
    } else {
      assert ids[i..][0] == ids[i] && ids[i..][1..] == ids[i + 1..];
      assert ids[i] !in ids[i + 1..];
      if ids[i] in names {
        forall q | 0 <= q < i
          ensures names[q] != ids[i]
        {
          assert names[..i][q] == ids[..i][q];
        }
        var p :| 0 <= p < |names| && names[p] == ids[i];
        assert names[i..][p - i] == ids[i];
        SubseqHead(names[i..], ids[i..]);
        assert names[i] == ids[i];
        assert names[..i + 1] == names[..i] + [names[i]];
        assert ids[..i + 1] == ids[..i] + [ids[i]];
        assert names[i..][1..] == names[i + 1..];
        FixFromOrdered(cols, buckets, ids, i + 1, defaultValue);
      } else {
        var filler := Filler(ids[i], buckets.value, defaultValue);
        var next := Insert(cols, i, filler);
        IdsOfInsert(cols, i, filler);
        var names' := IdsOf(next);
        assert names'[..i + 1] == ids[..i + 1];
        assert names'[i + 1..] == names[i..];
        assert ids[i] !in names[i..];
        FixFromOrdered(next, buckets, ids, i + 1, defaultValue);
      }
    }
  }

  /**
   * When the existing columns already follow the expected order (their ids are a subsequence of the
   * distinct `ids`), the result has exactly one column per expected id, in the expected order.
   */
  lemma FixInRequestedOrder(cols: seq<Column>, buckets: Option<seq<Bucket>>, ids: seq<string>,
                            defaultValue: int)
    requires Distinct(ids) && buckets.Some?
    requires IsSubseq(IdsOf(cols), ids)
    ensures var r := FixMissing(cols, buckets, ids, defaultValue);
            r.outcome == Completed && IdsOf(r.columns) == ids
  {
    assert IdsOf(cols)[0..] == IdsOf(cols) && ids[0..] == ids;
    FixFromOrdered(cols, buckets, ids, 0, defaultValue);
  }

  /**
   * Duplicate expected ids can make the insertion index run past the end of the list:
   * `["a", "a", "b"]` on an empty list inserts "a" at 0, finds "a", then inserts "b" at index 2 of a
   * one-column list.
   */
  lemma DuplicateIdsCanThrow()
    ensures FixMissing([], Some([]), ["a", "a", "b"], 0)
         == Fixed([Filler("a", [], 0)], Threw(IndexOutOfBounds(2, 1)))
  {
    var ids := ["a", "a", "b"];
    var one := [Filler("a", [], 0)];
    assert "a" !in IdsOf([]);
    assert Insert([], 0, Filler("a", [], 0)) == one;
    assert IdsOf(one) == ["a"];
    assert "b" !in IdsOf(one);
    assert FixFrom(one, Some([]), ids, 2, 0) == Fixed(one, Threw(IndexOutOfBounds(2, 1)));
    assert FixFrom(one, Some([]), ids, 1, 0) == FixFrom(one, Some([]), ids, 2, 0);
  }

  /**
   * Presence is checked anywhere in the list but insertion is at the literal index, so existing columns
   * out of the expected order stay out of it: columns "c", "a" with expected ids "a", "b", "c" end as
   * "c", "b", "a".
   */
  lemma OutOfOrderColumnsStayOutOfOrder()
    ensures var r := FixMissing([Column("c", [1]), Column("a", [2])], Some([Bucket(0, None)]), ["a", "b", "c"], 0);
            r.outcome == Completed && IdsOf(r.columns) == ["c", "b", "a"]
  {
    var axis := Some([Bucket(0, None)]);
    var ids := ["a", "b", "c"];
    var before := [Column("c", [1]), Column("a", [2])];
    var after := Insert(before, 1, Filler("b", axis.value, 0));
    assert IdsOf(before) == ["c", "a"];
    assert "a" in IdsOf(before) && "b" !in IdsOf(before);
    assert IdsOf(after) == ["c", "b", "a"];
    assert FixFrom(after, axis, ids, 3, 0) == Fixed(after, Completed);
    assert FixFrom(after, axis, ids, 2, 0) == Fixed(after, Completed);
    assert FixFrom(before, axis, ids, 1, 0) == Fixed(after, Completed);
  }
}
