/**
 * `group_query.py`: collapse a Flywheel query table to one row per distinct
 * combination of the grouping columns. Each kept row is numbered in a `group_id`
 * column and carries the grouping column names in a `groups` column.
 */
module GroupQuery {
  import opened Cells
  import opened Frames
  import opened FirstOccurrences
  import Sorting
  import Utils

  /** The columns both query tools sort their tables by. */
  const SortColumns: seq<string> := ["acquisition.id", "acquisition.label"]

  const GroupKeyError: string := "KeyError: a grouping column is missing"

  /**
   * `read_flywheel_csv` of `group_query.py` (`ungroup_query.py` has the same function):
   * `acquisition.id` must be present, and the rows come back sorted by acquisition id,
   * then acquisition label, which must be present as well.
   */
  function ReadFlywheelCsv(t: Table): (r: Result<Table>)
    requires Wf(t)
    ensures "acquisition.id" !in t.header ==> r == Err(Utils.FormatMessage)
    ensures r.Ok? <==> "acquisition.id" in t.header && "acquisition.label" in t.header
    ensures r.Ok? ==> Wf(r.value) && r.value.header == t.header && multiset(r.value.rows) == multiset(t.rows)
    ensures r.Ok? ==> SortedBy(r.value, SortColumns) && |r.value.rows| == |t.rows|
  {
    if "acquisition.id" !in t.header then Err(Utils.FormatMessage)
    else
      assert (forall n :: n in SortColumns ==> n in t.header) <==> "acquisition.label" in t.header;
      var s := SortBy(t, SortColumns);
      if s.Ok? then
        SortByWf(t, SortColumns);
        SortBySorted(t, SortColumns);
        assert |s.value.rows| == |multiset(s.value.rows)| == |multiset(t.rows)| == |t.rows|;
        s
      else s
  }

  /** The grouping tuple of every row. */
  function Keys(t: Table, names: seq<string>): (ks: seq<seq<Value>>)
    ensures |ks| == |t.rows| && forall i :: 0 <= i < |t.rows| ==> ks[i] == RowKey(t, i, names)
  {
    seq(|t.rows|, i requires 0 <= i < |t.rows| => RowKey(t, i, names))
  }

  /**
   * `(~duplicated(keys)).cumsum()`: at each row, the number of first occurrences up to
   * and including that row.
   */
  function CumulativeIds(keys: seq<seq<Value>>): (ids: seq<Value>)
    ensures |ids| == |keys|
  {
    seq(|keys|, i requires 0 <= i < |keys| => Num(|FirstIndices(keys[..i + 1])|))
  }

  /** The running count, accumulated row by row. */
  method RunningIds(keys: seq<seq<Value>>) returns (ids: seq<Value>)
    ensures ids == CumulativeIds(keys)
  {
    ids := [];
    var count := 0;
    var i := 0;
    while i < |keys|
      invariant 0 <= i <= |keys| && count == |FirstIndices(keys[..i])|
      invariant ids == CumulativeIds(keys)[..i]
    {
      FirstIndicesStep(keys, i);
      if keys[i] !in keys[..i] {
        count := count + 1;
      }
      ids := ids + [Num(count)];
      i := i + 1;
    }
  }

  /** Each kept row carries its rank among the first occurrences, counting from 1. */
  lemma KeptIds(keys: seq<seq<Value>>, j: nat)
    requires j < |FirstIndices(keys)|
    ensures CumulativeIds(keys)[FirstIndices(keys)[j]] == Num(j + 1)
  {
    RunningCountAtFirst(keys, j);
  }

  /** `drop_duplicates`: the rows holding the first occurrence of their key, in order. */
  method KeepFirst(rows: seq<seq<Value>>, keys: seq<seq<Value>>) returns (kept: seq<seq<Value>>)
    requires |rows| == |keys|
    ensures kept == Pick(rows, FirstIndices(keys))
  {
    kept := [];
    var i := 0;
    while i < |rows|
      invariant 0 <= i <= |rows|
      invariant kept == Pick(rows, FirstIndices(keys[..i]))
    {
      FirstIndicesStep(keys, i);
      if keys[i] !in keys[..i] {
        kept := kept + [rows[i]];
      }
      i := i + 1;
    }
    assert keys[..i] == keys;
  }

  /** The value of the `groups` cell: the grouping column names, sorted, joined by ", ". */
  function GroupsCell(group: seq<string>): Value {
    Str(Utils.Join(Sorting.Sort(group, StrLe), ", "))
  }

  /** The table with the running count stored in `group_id`. */
  function Stamped(q: Table, group: seq<string>): (t: Table)
    requires Wf(q)
    ensures Wf(t) && |t.rows| == |q.rows|
  {
    SetColumn(q, "group_id", CumulativeIds(Keys(q, group)))
  }

  /** The stamped table cut down to its first occurrences, with the `groups` column set. */
  function Collapsed(q: Table, group: seq<string>): (t: Table)
    requires Wf(q)
    ensures Wf(t) && |t.rows| == |FirstIndices(Keys(Stamped(q, group), group))|
    ensures forall n :: n in q.header ==> n in t.header
  {
    var t1 := Stamped(q, group);
    var t2 := Table(t1.header, Pick(t1.rows, FirstIndices(Keys(t1, group))));
    assert Wf(t2);
    SetColumn(t2, "groups", seq(|t2.rows|, _ => GroupsCell(group)))
  }

  /**
   * What the script writes out for `input` grouped by the columns `group`. It fails
   * exactly when the table cannot be read and sorted or a grouping column is missing.
   */
  function Grouped(input: Table, group: seq<string>): (r: Result<Table>)
    requires Wf(input)
    ensures r.Ok? <==> ReadFlywheelCsv(input).Ok? && forall g :: g in group ==> g in input.header
  {
    match ReadFlywheelCsv(input)
    case Err(e) => Err(e)
    case Ok(q) =>
      if !(forall g :: g in group ==> g in q.header) then Err(GroupKeyError)
      else SortBy(Collapsed(q, group), SortColumns)
  }

  const MissingAttribute: string := "AttributeError: 'Namespace' object has no attribute 'groups'"

  /**
   * The script as written: line 57 asks the parsed arguments for `groups`, while the
   * grouping columns are stored under `group`, so every run that reads its file stops
   * there and nothing is written.
   */
  function GroupedAsWritten(input: Table, group: seq<string>): (r: Result<Table>)
    requires Wf(input)
    ensures r.Err?
    ensures ReadFlywheelCsv(input).Ok? ==> r == Err(MissingAttribute)
  {
    match ReadFlywheelCsv(input)
    case Err(e) => Err(e)
    case Ok(_) => Err(MissingAttribute)
  }

  /** Whenever the script reading `args.group` writes a table, the script as written stops instead. */
  lemma GroupsAttributeMissing(input: Table, group: seq<string>)
    requires Wf(input) && Grouped(input, group).Ok?
    ensures GroupedAsWritten(input, group) == Err(MissingAttribute) && Grouped(input, group) != GroupedAsWritten(input, group)
  {
  }

  /**
   * The middle of the script on the sorted table: number the rows by the running count
   * of first occurrences, keep the first row of every group, record the grouping columns.
   */
  method Collapse(q: Table, group: seq<string>) returns (t: Table)
    requires Wf(q)
    ensures t == Collapsed(q, group)
  {
    var ids := RunningIds(Keys(q, group));
    t := SetColumn(q, "group_id", ids);
    assert t == Stamped(q, group);
    var kept := KeepFirst(t.rows, Keys(t, group));
    t := Table(t.header, kept);
    var names := new string[|group|](i requires 0 <= i < |group| => group[i]);
    assert names[..] == group;
    var cell := Utils.UnlistItem(Utils.ListArg(names));
    assert cell == GroupsCell(group);
    t := SetColumn(t, "groups", seq(|t.rows|, _ => cell));
  }

  /** The script's run: read and sort, check the grouping columns, collapse, sort again. */
  method Group(input: Table, group: seq<string>) returns (r: Result<Table>)
    requires Wf(input) && |group| > 0
    ensures r == Grouped(input, group)
  {
    var read := ReadFlywheelCsv(input);
    if read.Err? {
      return Err(read.error);
    }
    var q := read.value;
    if !(forall g :: g in group ==> g in q.header) {
      return Err(GroupKeyError);
    }
    var t := Collapse(q, group);
    r := SortBy(t, SortColumns);
  }

  // ---------------------------------------------------------------------------
  // Properties of the grouped table.

  lemma StampedCellAt(q: Table, group: seq<string>, i: nat, c: string)
    requires Wf(q) && i < |q.rows|
    ensures CellAt(Stamped(q, group), i, c) == if c == "group_id" then CumulativeIds(Keys(q, group))[i] else CellAt(q, i, c)
  {
    SetColumnCellAt(q, "group_id", CumulativeIds(Keys(q, group)), i, c);
  }

  /** Stamping does not disturb the grouping tuples unless `group_id` is itself a grouping column. */
  lemma StampedKeys(q: Table, group: seq<string>)
    requires Wf(q) && "group_id" !in group
    ensures Keys(Stamped(q, group), group) == Keys(q, group)
  {
    var t1 := Stamped(q, group);
    forall i | 0 <= i < |q.rows| ensures RowKey(t1, i, group) == RowKey(q, i, group) {
      forall j | 0 <= j < |group| ensures CellAt(t1, i, group[j]) == CellAt(q, i, group[j]) {
        StampedCellAt(q, group, i, group[j]);
      }
    }
  }

  lemma CollapsedCellAt(q: Table, group: seq<string>, j: nat, c: string)
    requires Wf(q) && j < |Collapsed(q, group).rows|
    ensures var fi := FirstIndices(Keys(Stamped(q, group), group));
      CellAt(Collapsed(q, group), j, c) == if c == "groups" then GroupsCell(group) else CellAt(Stamped(q, group), fi[j], c)
  {
    var t1 := Stamped(q, group);
    var t2 := Table(t1.header, Pick(t1.rows, FirstIndices(Keys(t1, group))));
    SetColumnCellAt(t2, "groups", seq(|t2.rows|, _ => GroupsCell(group)), j, c);
  }

  /** Keeping first occurrences of a sorted table leaves it sorted, so the final sort changes nothing. */
  lemma CollapsedSorted(q: Table, group: seq<string>)
    requires Wf(q) && SortedBy(q, SortColumns)
    ensures SortedBy(Collapsed(q, group), SortColumns)
  {
    var c := Collapsed(q, group);
    var fi := FirstIndices(Keys(Stamped(q, group), group));
    FirstIndicesIncreasing(Keys(Stamped(q, group), group));
    forall j | 0 <= j < |c.rows| ensures RowKey(c, j, SortColumns) == RowKey(q, fi[j], SortColumns) {
      forall k | 0 <= k < |SortColumns| ensures CellAt(c, j, SortColumns[k]) == CellAt(q, fi[j], SortColumns[k]) {
        CollapsedCellAt(q, group, j, SortColumns[k]);
        StampedCellAt(q, group, fi[j], SortColumns[k]);
      }
    }
  }

  /** The output is the collapsed table, in the order the sorted input gave it: the final sort moves nothing. */
  lemma GroupedOk(input: Table, group: seq<string>)
    requires Wf(input)
    ensures Grouped(input, group).Ok? ==>
      Grouped(input, group).value == Collapsed(ReadFlywheelCsv(input).value, group)
  {
    if ReadFlywheelCsv(input).Ok? && forall g :: g in group ==> g in input.header {
      var q := ReadFlywheelCsv(input).value;
      CollapsedSorted(q, group);
      SortByOfSorted(Collapsed(q, group), SortColumns);
    }
  }

  /**
   * Every output row is the first row of its group in the sorted input, with `group_id`
   * set to its rank among the groups (counting from 1) and `groups` set to the sorted,
   * joined grouping columns.
   */
  lemma GroupedCell(input: Table, group: seq<string>, j: nat, c: string)
    requires Wf(input) && Grouped(input, group).Ok? && "group_id" !in group
    ensures var q := ReadFlywheelCsv(input).value; var fi := FirstIndices(Keys(q, group));
      |Grouped(input, group).value.rows| == |fi| &&
      (j < |fi| ==>
        CellAt(Grouped(input, group).value, j, c) ==
          if c == "groups" then GroupsCell(group)
          else if c == "group_id" then Num(j + 1)
          else CellAt(q, fi[j], c))
  {
    GroupedOk(input, group);
    var q := ReadFlywheelCsv(input).value;
    StampedKeys(q, group);
    var fi := FirstIndices(Keys(q, group));
    if j < |fi| {
      CollapsedCellAt(q, group, j, c);
      StampedCellAt(q, group, fi[j], c);
      KeptIds(Keys(q, group), j);
    }
  }

  /** The grouping tuple of output row `j` is the `j`-th distinct tuple of the sorted input. */
  lemma GroupedRowKey(input: Table, group: seq<string>, j: nat)
    requires Wf(input) && Grouped(input, group).Ok? && "group_id" !in group && "groups" !in group
    requires j < |Grouped(input, group).value.rows| && j < |Uniq(Keys(ReadFlywheelCsv(input).value, group))|
    ensures var q := ReadFlywheelCsv(input).value;
      RowKey(Grouped(input, group).value, j, group) == Uniq(Keys(q, group))[j]
  {
    var q := ReadFlywheelCsv(input).value;
    var fi := FirstIndices(Keys(q, group));
    GroupedCell(input, group, j, "groups");
    forall k | 0 <= k < |group|
      ensures CellAt(Grouped(input, group).value, j, group[k]) == CellAt(q, fi[j], group[k])
    {
      GroupedCell(input, group, j, group[k]);
    }
  }

  /** Output row `j` carries id `j + 1` and the `j`-th distinct tuple, for every `j` below the number of tuples. */
  lemma GroupedRow(input: Table, group: seq<string>, j: nat)
    requires Wf(input) && Grouped(input, group).Ok? && "group_id" !in group && "groups" !in group
    ensures var q := ReadFlywheelCsv(input).value; var out := Grouped(input, group).value;
      |out.rows| == |Uniq(Keys(q, group))| &&
      (j < |out.rows| ==> CellAt(out, j, "group_id") == Num(j + 1) && RowKey(out, j, group) == Uniq(Keys(q, group))[j])
  {
    GroupedCell(input, group, j, "group_id");
    if j < |Grouped(input, group).value.rows| {
      GroupedRowKey(input, group, j);
    }
  }

  /** No two output rows share a grouping tuple. */
  lemma GroupedKeysDistinct(input: Table, group: seq<string>)
    requires Wf(input) && Grouped(input, group).Ok? && "group_id" !in group && "groups" !in group
    ensures var out := Grouped(input, group).value;
      forall j, j' :: 0 <= j < j' < |out.rows| ==> RowKey(out, j, group) != RowKey(out, j', group)
  {
    var q := ReadFlywheelCsv(input).value;
    var out := Grouped(input, group).value;
    GroupedCell(input, group, 0, "groups");
    UniqDistinct(Keys(q, group));
    forall j | 0 <= j < |out.rows| ensures RowKey(out, j, group) == Uniq(Keys(q, group))[j] {
      GroupedRowKey(input, group, j);
    }
  }

  /** Two arrangements of the same rows hold the same grouping tuples. */
  lemma PermutedKeys(a: Table, b: Table, group: seq<string>)
    requires a.header == b.header && multiset(a.rows) == multiset(b.rows)
    ensures forall x :: x in Keys(a, group) ==> x in Keys(b, group)
  {
    forall x | x in Keys(a, group) ensures x in Keys(b, group) {
      var i :| 0 <= i < |a.rows| && Keys(a, group)[i] == x;
      assert a.rows[i] in multiset(b.rows);
      var i' :| 0 <= i' < |b.rows| && b.rows[i'] == a.rows[i];
      assert RowKey(b, i', group) == RowKey(a, i, group);
    }
  }

  /** The sorted input holds the same grouping tuples as the input. */
  lemma SortedKeysSame(input: Table, group: seq<string>)
    requires Wf(input) && ReadFlywheelCsv(input).Ok?
    ensures forall x :: x in Keys(input, group) <==> x in Keys(ReadFlywheelCsv(input).value, group)
  {
    var q := ReadFlywheelCsv(input).value;
    PermutedKeys(input, q, group);
    PermutedKeys(q, input, group);
  }

  /** Every grouping tuple of the input is represented by an output row. */
  lemma GroupedKeysCover(input: Table, group: seq<string>, i: nat)
    requires Wf(input) && Grouped(input, group).Ok? && "group_id" !in group && "groups" !in group
    requires i < |input.rows|
    ensures var out := Grouped(input, group).value;
      exists j :: 0 <= j < |out.rows| && RowKey(out, j, group) == RowKey(input, i, group)
  {
    var q := ReadFlywheelCsv(input).value;
    SortedKeysSame(input, group);
    assert Keys(input, group)[i] in Keys(q, group);
    UniqCovers(Keys(q, group));
    var u := Uniq(Keys(q, group));
    var j :| 0 <= j < |u| && u[j] == RowKey(input, i, group);
    GroupedCell(input, group, 0, "groups");
    GroupedRowKey(input, group, j);
  }

  /** There are as many output rows as distinct grouping tuples, and no more than input rows. */
  lemma GroupedCount(input: Table, group: seq<string>)
    requires Wf(input) && Grouped(input, group).Ok? && "group_id" !in group
    ensures |Grouped(input, group).value.rows| == |set x | x in Keys(input, group)|
    ensures |Grouped(input, group).value.rows| <= |input.rows|
  {
    var q := ReadFlywheelCsv(input).value;
    GroupedCell(input, group, 0, "groups");
    UniqCount(Keys(q, group));
    SortedKeysSame(input, group);
    assert (set x | x in Keys(input, group)) == (set x | x in Keys(q, group));
  }

  /** Every output row names the grouping columns, sorted and joined, in its `groups` cell. */
  lemma GroupedGroupsCell(input: Table, group: seq<string>, j: nat)
    requires Wf(input) && Grouped(input, group).Ok? && j < |Grouped(input, group).value.rows|
    ensures CellAt(Grouped(input, group).value, j, "groups") == GroupsCell(group)
    ensures Sorting.Sorted(Sorting.Sort(group, StrLe), StrLe)
    ensures multiset(Sorting.Sort(group, StrLe)) == multiset(group)
  {
    GroupedOk(input, group);
    CollapsedCellAt(ReadFlywheelCsv(input).value, group, j, "groups");
    Utils.UnlistOrder(group);
  }

  /** The output is sorted by acquisition id, then acquisition label. */
  lemma GroupedSorted(input: Table, group: seq<string>)
    requires Wf(input) && Grouped(input, group).Ok?
    ensures SortedBy(Grouped(input, group).value, SortColumns)
  {
    GroupedOk(input, group);
    CollapsedSorted(ReadFlywheelCsv(input).value, group);
  }
}
