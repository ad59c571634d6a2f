/**
 * `ungroup_query.py`: carry the edits made to a grouped table back to every row of
 * the original table that belongs to the edited group.
 */
module UngroupQuery {
  import opened Cells
  import opened Frames
  import opened FirstOccurrences
  import opened CellDiff
  import Utils
  import opened GroupQuery
  import Sorting

  const GroupsKeyError: string := "KeyError: groups"
  const GroupIdKeyError: string := "KeyError: group_id"

  /**
   * The grouping columns, read back from the `groups` cell of the first row of the
   * edited grouped file as it was read (label 0, before sorting). A file without rows
   * or without that column, or a cell that is not text, stops the script.
   */
  function GroupingColumns(modified: Table): (r: Result<seq<string>>)
    ensures r.Ok? <==> |modified.rows| > 0 && "groups" in modified.header && CellAt(modified, 0, "groups").Str?
  {
    if |modified.rows| == 0 || "groups" !in modified.header then Err(GroupsKeyError)
    else match Utils.RelistItem(CellAt(modified, 0, "groups"))
      case Pieces(items) => Ok(items)
      case Unchanged(_) => Err(GroupsKeyError)
  }

  /**
   * A first `groups` cell that joins, with ", ", a non-empty list of names holding no
   * comma and no surrounding white space gives back exactly those names. The cell the
   * grouping script writes is such a cell for the sorted grouping columns (see
   * `SortedNamesClean`).
   */
  lemma GroupingColumnsRecovered(modified: Table, names: seq<string>)
    requires |modified.rows| > 0 && "groups" in modified.header && CellAt(modified, 0, "groups") == Str(Utils.Join(names, ", "))
    requires names != [] && forall k :: 0 <= k < |names| ==> ',' !in names[k] && Utils.Unpadded(names[k])
    ensures GroupingColumns(modified) == Ok(names)
  {
    Utils.RelistUnlist(names);
  }

  /**
   * Sorting keeps the names, so the sorted grouping columns in the `groups` cell are a
   * non-empty list of clean names when the grouping columns are.
   */
  lemma SortedNamesClean(group: seq<string>)
    requires group != [] && forall k :: 0 <= k < |group| ==> ',' !in group[k] && Utils.Unpadded(group[k])
    ensures var sorted := Sorting.Sort(group, StrLe);
      sorted != [] && forall k :: 0 <= k < |sorted| ==> ',' !in sorted[k] && Utils.Unpadded(sorted[k])
  {
    var sorted := Sorting.Sort(group, StrLe);
    assert group[0] in multiset(sorted);
    forall k | 0 <= k < |sorted| ensures ',' !in sorted[k] && Utils.Unpadded(sorted[k]) {
      assert sorted[k] in multiset(group);
    }
  }

  // ---------------------------------------------------------------------------
  // Group ids.

  /**
   * The ids the loop over the groups gives the rows when the groups come in `order`:
   * one more than the place of the row's key in `order`, and NaN for a key not in it.
   */
  function IdsFor(keys: seq<seq<Value>>, order: seq<seq<Value>>): (ids: seq<Value>)
    ensures |ids| == |keys|
  {
    seq(|keys|, i requires 0 <= i < |keys| =>
      match Position(order, keys[i])
      case Some(p) => Num(p + 1)
      case None => Missing)
  }

  /**
   * The orders the dictionary `groupby(groups).groups` may be iterated in: every key
   * without a NaN exactly once, in an order the hash table decides.
   */
  ghost predicate GroupbyOrder(keys: seq<seq<Value>>, order: seq<seq<Value>>) {
    Distinct(order) && forall k :: k in order <==> k in keys && Missing !in k
  }

  /** The counter loop: the `p`-th group in `order` gets id `p + 1` in all its rows. */
  method AssignIds(keys: seq<seq<Value>>, order: seq<seq<Value>>) returns (ids: seq<Value>)
    requires Distinct(order)
    ensures ids == IdsFor(keys, order)
  {
    ids := seq(|keys|, _ => Missing);
    var id := 1;
    var p := 0;
    while p < |order|
      invariant 0 <= p <= |order| && id == p + 1
      invariant ids == IdsFor(keys, order[..p])
    {
      assert order[..p + 1] == order[..p] + [order[p]];
      assert order[p] !in order[..p];
      forall i | 0 <= i < |keys| {
        PositionExtend(order[..p], order[p], keys[i]);
      }
      ids := seq(|keys|, i requires 0 <= i < |keys| => if keys[i] == order[p] then Num(id) else ids[i]);
      id := id + 1;
      p := p + 1;
    }
    assert order[..p] == order;
  }

  /**
   * Whatever the order: rows with equal keys get equal ids, rows with equal ids that
   * are not NaN have equal keys, ids run from 1 to the number of groups, and (for an
   * order the dictionary may produce) a row gets NaN exactly when its key holds a NaN.
   */
  lemma IdsForConsistent(keys: seq<seq<Value>>, order: seq<seq<Value>>, i: nat, i': nat)
    requires i < |keys| && i' < |keys|
    ensures keys[i] == keys[i'] ==> IdsFor(keys, order)[i] == IdsFor(keys, order)[i']
    ensures IdsFor(keys, order)[i] == IdsFor(keys, order)[i'] && !IdsFor(keys, order)[i].Missing? ==> keys[i] == keys[i']
    ensures IdsFor(keys, order)[i].Missing? || 1 <= IdsFor(keys, order)[i].n <= |order|
    ensures GroupbyOrder(keys, order) ==> (IdsFor(keys, order)[i].Missing? <==> Missing in keys[i])
  {
  }

  /**
   * With the groups in order of first appearance, a row gets id `g` exactly when its
   * key is the `g`-th distinct key.
   */
  lemma FirstAppearanceIds(keys: seq<seq<Value>>, i: nat, g: int)
    requires i < |keys|
    ensures IdsFor(keys, Uniq(keys))[i] == Num(g) <==> 1 <= g <= |Uniq(keys)| && keys[i] == Uniq(keys)[g - 1]
  {
    var u := Uniq(keys);
    UniqCovers(keys);
    UniqDistinct(keys);
    if 1 <= g <= |u| && keys[i] == u[g - 1] {
      PositionDistinct(u, g - 1);
    }
  }

  /**
   * For the first occurrence of a key, first-appearance numbering gives the id the
   * running count of the grouping script gives it.
   */
  lemma FirstAppearanceMatchesRunningCount(keys: seq<seq<Value>>, j: nat)
    requires j < |FirstIndices(keys)|
    ensures IdsFor(keys, Uniq(keys))[FirstIndices(keys)[j]] == CumulativeIds(keys)[FirstIndices(keys)[j]] == Num(j + 1)
  {
    KeptIds(keys, j);
    FirstAppearanceIds(keys, FirstIndices(keys)[j], j + 1);
  }

  /**
   * As written, the ids follow the dictionary's order, not first appearance. With
   * rows keyed `b` then `a`, the sorted order numbers the first row 2, while the
   * grouping script gave that row's group the id 1; a row whose key holds a NaN gets
   * no id at all, while the grouping script numbered its group.
   */
  lemma GroupbyOrderMisnumbers()
    ensures var keys := [[Str("b")], [Str("a")]]; var order := [[Str("a")], [Str("b")]];
      GroupbyOrder(keys, order) && IdsFor(keys, order)[0] == Num(2) && CumulativeIds(keys)[0] == Num(1)
    ensures GroupbyOrder([[Missing]], []) && IdsFor([[Missing]], [])[0] == Missing
    ensures CumulativeIds([[Missing]])[0] == Num(1)
  {
    var keys := [[Str("b")], [Str("a")]];
    assert keys[..1] == [[Str("b")]];
    assert FirstIndices(keys[..1]) == [0];
    var order := [[Str("a")], [Str("b")]];
    assert Position(order, keys[0]) == Some(1);
    assert [[Missing]][..1] == [[Missing]];
    assert FirstIndices([[Missing]]) == [0];
  }

  // ---------------------------------------------------------------------------
  // Changes.

  /** One edit to carry over: the group id of the edited row, the column and the new value. */
  datatype Change = Change(key: Value, column: string, value: Value)

  /** The edit at a differing cell of the edited grouped table (looked up by position). */
  function ChangeAt(gm: Table, c: Coord): Change
    requires Wf(gm) && InBounds(gm, c)
  {
    Change(CellAt(gm, c.row, "group_id"), gm.header[c.col], gm.rows[c.row][c.col])
  }

  function Changes(gm: Table, diff: seq<Coord>): (cs: seq<Change>)
    requires Wf(gm) && forall k :: 0 <= k < |diff| ==> InBounds(gm, diff[k])
    ensures |cs| == |diff| && forall k :: 0 <= k < |diff| ==> cs[k] == ChangeAt(gm, diff[k])
  {
    seq(|diff|, k requires 0 <= k < |diff| => ChangeAt(gm, diff[k]))
  }

  /** The loop that lists the changes, in the order of the differences. */
  method CollectChanges(gm: Table, diff: seq<Coord>) returns (changes: seq<Change>)
    requires Wf(gm) && forall k :: 0 <= k < |diff| ==> InBounds(gm, diff[k])
    ensures changes == Changes(gm, diff)
  {
    changes := [];
    var k := 0;
    while k < |diff|
      invariant 0 <= k <= |diff| && changes == Changes(gm, diff)[..k]
    {
      changes := changes + [ChangeAt(gm, diff[k])];
      k := k + 1;
    }
  }

  /** A row receives a change when its `group_id` equals the change's; NaN equals nothing. */
  predicate Matches(id: Value, key: Value) {
    id == key && !key.Missing?
  }

  /**
   * `df.loc[df['group_id'] == key, column] = value`: a column the table lacks is added,
   * NaN in the rows the change does not reach.
   */
  function ApplyChange(t: Table, ch: Change): (r: Table)
    requires Wf(t)
    ensures Wf(r) && |r.rows| == |t.rows|
    ensures forall n :: n in r.header <==> n in t.header || n == ch.column
  {
    SetColumn(t, ch.column, seq(|t.rows|, i requires 0 <= i < |t.rows| =>
      if Matches(CellAt(t, i, "group_id"), ch.key) then ch.value else CellAt(t, i, ch.column)))
  }

  /**
   * After one change, the rows of its group hold the new value in its column; every
   * other cell keeps its value.
   */
  lemma ApplyChangeCellAt(t: Table, ch: Change, i: nat, c: string)
    requires Wf(t) && i < |t.rows|
    ensures CellAt(ApplyChange(t, ch), i, c) ==
      if c == ch.column && Matches(CellAt(t, i, "group_id"), ch.key) then ch.value else CellAt(t, i, c)
  {
    SetColumnCellAt(t, ch.column, seq(|t.rows|, i requires 0 <= i < |t.rows| =>
      if Matches(CellAt(t, i, "group_id"), ch.key) then ch.value else CellAt(t, i, ch.column)), i, c);
  }

  /**
   * The lookup as written: `.loc[x[0], 'group_id']` reads the row whose index label is
   * `x[0]`, while `x[0]` is a position in the re-sorted table. `labels[p]` is the label
   * (the row number in the file) of sorted row `p`; a label that is absent raises.
   */
  function ChangeAtAsWritten(gm: Table, labels: seq<nat>, c: Coord): (ch: Option<Change>)
    requires Wf(gm) && InBounds(gm, c) && |labels| == |gm.rows|
    ensures ch.Some? <==> c.row in labels
    ensures ch.Some? ==> ch.value.column == ChangeAt(gm, c).column && ch.value.value == ChangeAt(gm, c).value
    ensures ch.Some? ==> exists p :: 0 <= p < |labels| && labels[p] == c.row && ch.value.key == CellAt(gm, p, "group_id")
  {
    match Position(labels, c.row)
    case None => None
    case Some(p) => Some(Change(CellAt(gm, p, "group_id"), gm.header[c.col], gm.rows[c.row][c.col]))
  }

  /**
   * The file listed group 2 before group 1, so sorting swapped the rows: an edit to the
   * first sorted row (group 1) is keyed by the id of the second (group 2).
   */
  lemma LabelLookupMisroutes()
    ensures var gm := Table(["group_id", "x"], [[Num(1), Str("a")], [Num(2), Str("b")]]);
      ChangeAtAsWritten(gm, [1, 0], Coord(0, 1)) == Some(Change(Num(2), "x", Str("a"))) &&
      ChangeAt(gm, Coord(0, 1)).key == Num(1)
  {
    var gm := Table(["group_id", "x"], [[Num(1), Str("a")], [Num(2), Str("b")]]);
    assert Position([1, 0], 0) == Some(1);
    assert CellAt(gm, 1, "group_id") == Num(2) && CellAt(gm, 0, "group_id") == Num(1);
  }

  /** When sorting left the file's order alone, labels and positions agree and so do the lookups. */
  lemma LabelLookupInFileOrder(gm: Table, c: Coord)
    requires Wf(gm) && InBounds(gm, c)
    ensures ChangeAtAsWritten(gm, seq(|gm.rows|, p => p), c) == Some(ChangeAt(gm, c))
  {
    var ids: seq<nat> := seq(|gm.rows|, p => p);
    assert ids[c.row] == c.row;
    PositionDistinct(ids, c.row);
  }

  /**
   * The edit at `c` of the edited grouped file, looked up by position, reaches row `i`
   * of a table exactly when row `i` carries the id of the edited row itself.
   */
  lemma ChangeReachesEditedGroup(gm: Table, c: Coord, t: Table, i: nat)
    requires Wf(gm) && InBounds(gm, c) && Wf(t) && i < |t.rows|
    ensures CellAt(ApplyChange(t, ChangeAt(gm, c)), i, gm.header[c.col]) ==
      if Matches(CellAt(t, i, "group_id"), CellAt(gm, c.row, "group_id")) then gm.rows[c.row][c.col]
      else CellAt(t, i, gm.header[c.col])
  {
    ApplyChangeCellAt(t, ChangeAt(gm, c), i, gm.header[c.col]);
  }

  /** The changes applied one after another, in order. */
  function ApplyAll(t: Table, cs: seq<Change>): (r: Table)
    requires Wf(t)
    ensures Wf(r) && |r.rows| == |t.rows|
    ensures forall n :: n in t.header ==> n in r.header
    decreases |cs|
  {
    if cs == [] then t else ApplyChange(ApplyAll(t, cs[..|cs| - 1]), cs[|cs| - 1])
  }

  lemma ApplyAllStep(t: Table, cs: seq<Change>, k: nat)
    requires Wf(t) && k < |cs|
    ensures ApplyAll(t, cs[..k + 1]) == ApplyChange(ApplyAll(t, cs[..k]), cs[k])
  {
    assert cs[..k + 1][..k] == cs[..k];
  }

  /** The loop over the changes, reassigning the frame each time. */
  method ApplyChanges(t: Table, cs: seq<Change>) returns (r: Table)
    requires Wf(t)
    ensures r == ApplyAll(t, cs)
  {
    r := t;
    var k := 0;
    while k < |cs|
      invariant 0 <= k <= |cs| && r == ApplyAll(t, cs[..k])
    {
      ApplyAllStep(t, cs, k);
      r := ApplyChange(r, cs[k]);
      k := k + 1;
    }
    assert cs[..k] == cs;
  }

  /** The value the last change for group `id` and column `c` writes, if there is one. */
  function LastWrite(cs: seq<Change>, id: Value, c: string): (w: Option<Value>)
    ensures w.Some? <==> exists k :: 0 <= k < |cs| && cs[k].column == c && Matches(id, cs[k].key)
    decreases |cs|
  {
    if cs == [] then None
    else
      var last := cs[|cs| - 1];
      var w := if last.column == c && Matches(id, last.key) then Some(last.value) else LastWrite(cs[..|cs| - 1], id, c);
      assert forall k :: 0 <= k < |cs| - 1 ==> cs[..|cs| - 1][k] == cs[k];
      w
  }

  /**
   * After all the changes, a cell holds the value of the last change made to its
   * column in its row's group, or its old value when there is none; `group_id` is
   * left alone as long as no change is made to it.
   */
  lemma {:induction false} ApplyAllCellAt(t: Table, cs: seq<Change>, i: nat, c: string)
    requires Wf(t) && i < |t.rows| && forall k :: 0 <= k < |cs| ==> cs[k].column != "group_id"
    ensures CellAt(ApplyAll(t, cs), i, "group_id") == CellAt(t, i, "group_id")
    ensures CellAt(ApplyAll(t, cs), i, c) ==
      match LastWrite(cs, CellAt(t, i, "group_id"), c)
      case Some(v) => v
      case None => CellAt(t, i, c)
    decreases |cs|
  {
    if cs != [] {
      var prefix := cs[..|cs| - 1];
      ApplyAllCellAt(t, prefix, i, c);
      var prev := ApplyAll(t, prefix);
      ApplyChangeCellAt(prev, cs[|cs| - 1], i, c);
      ApplyChangeCellAt(prev, cs[|cs| - 1], i, "group_id");
    }
  }

  // ---------------------------------------------------------------------------
  // The whole script.

  /** The sorted original, with the group ids in `group_id`, groups numbered in order of first appearance. */
  function Labelled(o: Table, groups: seq<string>): (t: Table)
    requires Wf(o)
    ensures Wf(t) && |t.rows| == |o.rows|
    ensures forall n :: n in t.header <==> n in o.header || n == "group_id"
  {
    var o1 := SetColumn(o, "group_id", seq(|o.rows|, _ => Missing));
    var keys := Keys(o1, groups);
    SetColumn(o1, "group_id", IdsFor(keys, Uniq(keys)))
  }

  /** Apply the changes, drop the helper column, sort. */
  function Finish(t: Table, cs: seq<Change>): (r: Result<Table>)
    requires Wf(t) && "group_id" in t.header
    ensures (forall n :: n in SortColumns ==> n in t.header) ==> r.Ok?
    ensures r.Ok? ==> "group_id" !in r.value.header && SortedBy(r.value, SortColumns)
  {
    var dropped := DropColumn(ApplyAll(t, cs), "group_id");
    var r := SortBy(dropped, SortColumns);
    if r.Ok? then
      SortByWf(dropped, SortColumns);
      SortBySorted(dropped, SortColumns);
      r
    else r
  }

  /** What the script has in hand before it edits anything. */
  datatype Inputs = Inputs(gm: Table, groups: seq<string>, g: Table, o: Table, diff: seq<Coord>)

  /**
   * The reading half of the script, in its order: the edited grouped file and its
   * grouping columns, the unedited grouped file, the original, the check that the
   * grouping columns exist in the original, the differing cells, and the `group_id`
   * lookup the first difference makes.
   */
  function Prepare(grouped: Table, modified: Table, original: Table): (r: Result<Inputs>)
    requires Wf(grouped) && Wf(modified) && Wf(original)
    ensures r.Ok? <==>
      ReadFlywheelCsv(modified).Ok? && GroupingColumns(modified).Ok? &&
      ReadFlywheelCsv(grouped).Ok? && ReadFlywheelCsv(original).Ok? &&
      (forall n :: n in GroupingColumns(modified).value ==> n in original.header || n == "group_id") &&
      SameShape(ReadFlywheelCsv(grouped).value, ReadFlywheelCsv(modified).value) &&
      (UnequalCells(ReadFlywheelCsv(grouped).value, ReadFlywheelCsv(modified).value).value != [] ==> "group_id" in modified.header)
    ensures r.Ok? ==>
      ReadFlywheelCsv(modified) == Ok(r.value.gm) && GroupingColumns(modified) == Ok(r.value.groups) &&
      ReadFlywheelCsv(grouped) == Ok(r.value.g) && ReadFlywheelCsv(original) == Ok(r.value.o) &&
      UnequalCells(r.value.g, r.value.gm) == Ok(r.value.diff)
    ensures r.Ok? ==>
      Wf(r.value.gm) && Wf(r.value.o) && |r.value.o.rows| == |original.rows| &&
      (forall n :: n in SortColumns ==> n in r.value.o.header) &&
      (r.value.diff != [] ==> "group_id" in r.value.gm.header) &&
      forall k :: 0 <= k < |r.value.diff| ==> InBounds(r.value.gm, r.value.diff[k])
  {
    match ReadFlywheelCsv(modified)
    case Err(e) => Err(e)
    case Ok(gm) =>
      match GroupingColumns(modified)
      case Err(e) => Err(e)
      case Ok(groups) =>
        match ReadFlywheelCsv(grouped)
        case Err(e) => Err(e)
        case Ok(g) =>
          match ReadFlywheelCsv(original)
          case Err(e) => Err(e)
          case Ok(o) =>
            if !(forall n :: n in groups ==> n in o.header || n == "group_id") then Err(GroupsKeyError)
            else
              match UnequalCells(g, gm)
              case Err(e) => Err(e)
              case Ok(diff) =>
                if diff != [] && "group_id" !in gm.header then Err(GroupIdKeyError)
                else Ok(Inputs(gm, groups, g, o, diff))
  }

  /**
   * What the script writes out, with the ids numbered in order of first appearance.
   * Once the inputs are accepted the script always produces a table; it never has the
   * helper column and is sorted by acquisition id, then label.
   */
  function Ungrouped(grouped: Table, modified: Table, original: Table): (r: Result<Table>)
    requires Wf(grouped) && Wf(modified) && Wf(original)
    ensures r.Ok? <==> Prepare(grouped, modified, original).Ok?
    ensures r.Err? ==> r == Err(Prepare(grouped, modified, original).error)
    ensures r.Ok? ==> "group_id" !in r.value.header && SortedBy(r.value, SortColumns)
  {
    match Prepare(grouped, modified, original)
    case Err(e) => Err(e)
    case Ok(p) => Finish(Labelled(p.o, p.groups), Changes(p.gm, p.diff))
  }

  /** The rows of `o` numbered by group: the counter loop over the groups in order of first appearance. */
  method Label(o: Table, groups: seq<string>) returns (t: Table)
    requires Wf(o)
    ensures t == Labelled(o, groups)
  {
    t := SetColumn(o, "group_id", seq(|o.rows|, _ => Missing));
    var keys := Keys(t, groups);
    UniqDistinct(keys);
    var ids := AssignIds(keys, Uniq(keys));
    t := SetColumn(t, "group_id", ids);
  }

  /** The script's reads and checks, one after another, stopping at the first failure. */
  method ReadInputs(grouped: Table, modified: Table, original: Table) returns (r: Result<Inputs>)
    requires Wf(grouped) && Wf(modified) && Wf(original)
    ensures r == Prepare(grouped, modified, original)
  {
    var gm := ReadFlywheelCsv(modified);
    if gm.Err? {
      return Err(gm.error);
    }
    var groups := GroupingColumns(modified);
    if groups.Err? {
      return Err(groups.error);
    }
    var g := ReadFlywheelCsv(grouped);
    if g.Err? {
      return Err(g.error);
    }
    var o := ReadFlywheelCsv(original);
    if o.Err? {
      return Err(o.error);
    }
    if !(forall n :: n in groups.value ==> n in o.value.header || n == "group_id") {
      return Err(GroupsKeyError);
    }
    var diff := UnequalCells(g.value, gm.value);
    if diff.Err? {
      return Err(diff.error);
    }
    if diff.value != [] && "group_id" !in gm.value.header {
      return Err(GroupIdKeyError);
    }
    r := Ok(Inputs(gm.value, groups.value, g.value, o.value, diff.value));
  }

  /** The script's run: label the original, carry every change over, drop the ids, sort. */
  method Ungroup(grouped: Table, modified: Table, original: Table) returns (r: Result<Table>)
    requires Wf(grouped) && Wf(modified) && Wf(original)
    ensures r == Ungrouped(grouped, modified, original)
  {
    var p := ReadInputs(grouped, modified, original);
    if p.Err? {
      return Err(p.error);
    }
    var t := Label(p.value.o, p.value.groups);
    var changes := CollectChanges(p.value.gm, p.value.diff);
    t := ApplyChanges(t, changes);
    t := DropColumn(t, "group_id");
    r := SortBy(t, SortColumns);
  }

  // ---------------------------------------------------------------------------
  // Properties of the ungrouped table.

  lemma LabelledCellAt(o: Table, groups: seq<string>, i: nat, c: string)
    requires Wf(o) && i < |o.rows|
    ensures var keys := Keys(SetColumn(o, "group_id", seq(|o.rows|, _ => Missing)), groups);
      CellAt(Labelled(o, groups), i, c) == if c == "group_id" then IdsFor(keys, Uniq(keys))[i] else CellAt(o, i, c)
  {
    var o1 := SetColumn(o, "group_id", seq(|o.rows|, _ => Missing));
    var keys := Keys(o1, groups);
    SetColumnCellAt(o1, "group_id", IdsFor(keys, Uniq(keys)), i, c);
    SetColumnCellAt(o, "group_id", seq(|o.rows|, _ => Missing), i, c);
  }

  /** The blank `group_id` column does not disturb the grouping tuples unless it is one of the grouping columns. */
  lemma BlankKeys(o: Table, groups: seq<string>)
    requires Wf(o) && "group_id" !in groups
    ensures Keys(SetColumn(o, "group_id", seq(|o.rows|, _ => Missing)), groups) == Keys(o, groups)
  {
    var o1 := SetColumn(o, "group_id", seq(|o.rows|, _ => Missing));
    forall i | 0 <= i < |o.rows| ensures RowKey(o1, i, groups) == RowKey(o, i, groups) {
      forall j | 0 <= j < |groups| ensures CellAt(o1, i, groups[j]) == CellAt(o, i, groups[j]) {
        SetColumnCellAt(o, "group_id", seq(|o.rows|, _ => Missing), i, groups[j]);
      }
    }
  }

  /**
   * In the numbered table, a row gets id `g` exactly when its grouping tuple is the
   * `g`-th distinct tuple, counted in order of first appearance.
   */
  lemma LabelledIds(q: Table, groups: seq<string>, i: nat, g: int)
    requires Wf(q) && "group_id" !in groups && i < |q.rows|
    ensures CellAt(Labelled(q, groups), i, "group_id") == Num(g) <==>
      1 <= g <= |Uniq(Keys(q, groups))| && RowKey(q, i, groups) == Uniq(Keys(q, groups))[g - 1]
  {
    var keys := Keys(q, groups);
    assert CellAt(Labelled(q, groups), i, "group_id") == IdsFor(keys, Uniq(keys))[i] by {
      LabelledCellAt(q, groups, i, "group_id");
      BlankKeys(q, groups);
    }
    FirstAppearanceIds(keys, i, g);
  }

  /** Every labelled row carries an id between 1 and the number of distinct grouping tuples. */
  lemma LabelledIdInRange(q: Table, groups: seq<string>, i: nat)
    requires Wf(q) && "group_id" !in groups && i < |q.rows|
    ensures CellAt(Labelled(q, groups), i, "group_id").Num?
    ensures 1 <= CellAt(Labelled(q, groups), i, "group_id").n <= |Uniq(Keys(q, groups))|
  {
    var keys := Keys(q, groups);
    UniqCovers(keys);
    assert keys[i] in Uniq(keys);
    var k :| 0 <= k < |Uniq(keys)| && Uniq(keys)[k] == keys[i];
    LabelledIds(q, groups, i, k + 1);
  }

  /**
   * Ids numbered in order of first appearance agree with the grouping script: in the
   * original it was given, a row gets id `j + 1` exactly when the grouped row `j` exists,
   * carries that id and has the same grouping tuple; and every row gets one of those ids.
   */
  lemma IdsAgreeWithGroupQuery(original: Table, groups: seq<string>, i: nat, j: nat)
    requires Wf(original) && Grouped(original, groups).Ok? && "group_id" !in groups && "groups" !in groups
    requires i < |original.rows|
    ensures var o := ReadFlywheelCsv(original).value; var out := Grouped(original, groups).value;
      CellAt(Labelled(o, groups), i, "group_id") == Num(j + 1) <==>
        j < |out.rows| && CellAt(out, j, "group_id") == Num(j + 1) && RowKey(o, i, groups) == RowKey(out, j, groups)
    ensures var o := ReadFlywheelCsv(original).value; var out := Grouped(original, groups).value;
      CellAt(Labelled(o, groups), i, "group_id").Num? && 1 <= CellAt(Labelled(o, groups), i, "group_id").n <= |out.rows|
  {
    var o := ReadFlywheelCsv(original).value;
    LabelledIds(o, groups, i, j + 1);
    LabelledIdInRange(o, groups, i);
    GroupedRow(original, groups, j);
  }

  /** When no cell of the grouped table was edited, the script gives back the sorted original. */
  lemma UngroupedWithoutEdits(grouped: Table, original: Table)
    requires Wf(grouped) && Wf(original) && "group_id" !in original.header
    requires Ungrouped(grouped, grouped, original).Ok?
    ensures Ungrouped(grouped, grouped, original) == ReadFlywheelCsv(original)
  {
    var p := Prepare(grouped, grouped, original).value;
    DiffOfSelf(p.g);
    var o := p.o;
    var blank := seq(|o.rows|, _ => Missing);
    var o1 := SetColumn(o, "group_id", blank);
    var keys := Keys(o1, p.groups);
    SetColumnTwice(o, "group_id", blank, IdsFor(keys, Uniq(keys)));
    DropSetColumn(o, "group_id", IdsFor(keys, Uniq(keys)));
    SortByOfSorted(o, SortColumns);
  }

  /**
   * After the changes and the drop, a cell holds the value of the last change made to
   * its column in its row's group, or its old value; the helper column is gone.
   */
  lemma FinishedCellAt(t: Table, cs: seq<Change>, i: nat, c: string)
    requires Wf(t) && "group_id" in t.header && i < |t.rows|
    requires forall k :: 0 <= k < |cs| ==> cs[k].column != "group_id"
    ensures CellAt(DropColumn(ApplyAll(t, cs), "group_id"), i, c) ==
      if c == "group_id" then Missing
      else match LastWrite(cs, CellAt(t, i, "group_id"), c)
        case Some(v) => v
        case None => CellAt(t, i, c)
  {
    DropColumnCellAt(ApplyAll(t, cs), "group_id", i, c);
    ApplyAllCellAt(t, cs, i, c);
  }

  /** Numbering the groups leaves the sort columns, and so the order of the rows, as they were. */
  lemma LabelledSorted(o: Table, groups: seq<string>)
    requires Wf(o) && SortedBy(o, SortColumns)
    ensures SortedBy(Labelled(o, groups), SortColumns)
  {
    var t := Labelled(o, groups);
    forall j | 0 <= j < |o.rows| ensures RowKey(t, j, SortColumns) == RowKey(o, j, SortColumns) {
      LabelledCellAt(o, groups, j, SortColumns[0]);
      LabelledCellAt(o, groups, j, SortColumns[1]);
      SameRowKey(t, j, o, j, SortColumns);
    }
  }

  /** A column no change writes keeps its values through the changes and the drop. */
  lemma UntouchedCell(t: Table, cs: seq<Change>, j: nat, c: string)
    requires Wf(t) && "group_id" in t.header && j < |t.rows| && c != "group_id"
    requires forall k :: 0 <= k < |cs| ==> cs[k].column != "group_id" && cs[k].column != c
    ensures CellAt(DropColumn(ApplyAll(t, cs), "group_id"), j, c) == CellAt(t, j, c)
  {
    FinishedCellAt(t, cs, j, c);
  }

  /**
   * When no change touches `group_id` or the sort columns of a sorted table, the final
   * sort has nothing to move.
   */
  lemma FinishKeepsOrder(t: Table, cs: seq<Change>)
    requires Wf(t) && "group_id" in t.header && SortedBy(t, SortColumns) && forall n :: n in SortColumns ==> n in t.header
    requires forall k :: 0 <= k < |cs| ==> cs[k].column != "group_id" && cs[k].column !in SortColumns
    ensures Finish(t, cs) == Ok(DropColumn(ApplyAll(t, cs), "group_id"))
  {
    var dropped := DropColumn(ApplyAll(t, cs), "group_id");
    forall j | 0 <= j < |t.rows| ensures RowKey(dropped, j, SortColumns) == RowKey(t, j, SortColumns) {
      UntouchedCell(t, cs, j, SortColumns[0]);
      UntouchedCell(t, cs, j, SortColumns[1]);
      SameRowKey(dropped, j, t, j, SortColumns);
    }
    SortByOfSorted(dropped, SortColumns);
  }

  /**
   * When no change touches `group_id` or the sort columns, the final sort keeps the row
   * order, and the result is the sorted original with the changes applied and
   * `group_id` gone: every cell holds the last change made to its column in its row's
   * group, or its old value.
   */
  lemma UngroupedCell(grouped: Table, modified: Table, original: Table, i: nat, c: string)
    requires Wf(grouped) && Wf(modified) && Wf(original)
    requires Prepare(grouped, modified, original).Ok?
    requires var p := Prepare(grouped, modified, original).value;
      forall k :: 0 <= k < |p.diff| ==>
        ChangeAt(p.gm, p.diff[k]).column != "group_id" && ChangeAt(p.gm, p.diff[k]).column !in SortColumns
    requires i < |original.rows|
    ensures var p := Prepare(grouped, modified, original).value;
      var out := Ungrouped(grouped, modified, original).value;
      |out.rows| == |p.o.rows| &&
      CellAt(out, i, c) ==
        if c == "group_id" then Missing
        else match LastWrite(Changes(p.gm, p.diff), CellAt(Labelled(p.o, p.groups), i, "group_id"), c)
          case Some(v) => v
          case None => CellAt(p.o, i, c)
  {
    var p := Prepare(grouped, modified, original).value;
    var cs := Changes(p.gm, p.diff);
    LabelledSorted(p.o, p.groups);
    FinishKeepsOrder(Labelled(p.o, p.groups), cs);
    FinishedCellAt(Labelled(p.o, p.groups), cs, i, c);
    LabelledCellAt(p.o, p.groups, i, c);
  }
}
