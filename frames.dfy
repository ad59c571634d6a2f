/**
 * pandas frames as the tools use them: a header of column names and rows of cells,
 * with the column lookups, column assignment, column drop and multi-column sort the
 * scripts perform.
 */
module Frames {
  import opened Cells
  import Sorting

  datatype Table = Table(header: seq<string>, rows: seq<seq<Value>>)

  /** No element occurs twice. */
  predicate Distinct<T(==)>(s: seq<T>) {
    forall i, j :: 0 <= i < j < |s| ==> s[i] != s[j]
  }

  /** What `read_csv` produces: every row as wide as the header, column names distinct. */
  predicate Wf(t: Table) {
    Distinct(t.header) && forall i :: 0 <= i < |t.rows| ==> |t.rows[i]| == |t.header|
  }

  /** A list of distinct names has as many members as the set of its names. */
  lemma {:induction false} DistinctCard(names: seq<string>)
    requires Distinct(names)
    ensures |set n | n in names| == |names|
  {
    if names != [] {
      var rest := names[1..];
      assert Distinct(rest);
      DistinctCard(rest);
      assert (set n | n in names) == {names[0]} + (set n | n in rest);
      assert names[0] !in rest;
    }
  }

  /** Position of a column name, if the header has it. */
  function IndexOf(names: seq<string>, name: string): (r: Option<nat>)
    ensures r.Some? ==> r.value < |names| && names[r.value] == name
    ensures r.None? <==> name !in names
  {
    if names == [] then None
    else if names[0] == name then Some(0)
    else match IndexOf(names[1..], name)
      case None => None
      case Some(k) => Some(k + 1)
  }

  lemma IndexOfDistinct(names: seq<string>, k: nat)
    requires Distinct(names) && k < |names|
    ensures IndexOf(names, names[k]) == Some(k)
  {
    var r := IndexOf(names, names[k]);
    assert r.Some?;
  }

  /** A cell by position, or NaN past the end of the row. */
  function Get(row: seq<Value>, i: nat): Value {
    if i < |row| then row[i] else Missing
  }

  /** The tuple of cells at the given positions. */
  function KeyOf(row: seq<Value>, idxs: seq<nat>): (k: seq<Value>)
    ensures |k| == |idxs|
  {
    seq(|idxs|, j requires 0 <= j < |idxs| => Get(row, idxs[j]))
  }

  /** Positions of all the named columns, or None when one of them is absent (a KeyError). */
  function Indices(header: seq<string>, names: seq<string>): (r: Option<seq<nat>>)
    ensures r.Some? <==> forall n :: n in names ==> n in header
    ensures r.Some? ==> |r.value| == |names|
    ensures r.Some? ==> forall j :: 0 <= j < |names| ==> r.value[j] < |header| && header[r.value[j]] == names[j]
  {
    if names == [] then Some([])
    else match IndexOf(header, names[0])
      case None => None
      case Some(k) =>
        match Indices(header, names[1..])
        case None => None
        case Some(ks) => Some([k] + ks)
  }

  /** The cell in the named column, or NaN when there is no such column. */
  function CellAt(t: Table, i: nat, name: string): Value
    requires i < |t.rows|
  {
    match IndexOf(t.header, name)
    case Some(k) => Get(t.rows[i], k)
    case None => Missing
  }

  /** The cells of row `i` in the named columns (NaN for a column the frame lacks). */
  function RowKey(t: Table, i: nat, names: seq<string>): (k: seq<Value>)
    requires i < |t.rows|
    ensures |k| == |names| && forall j :: 0 <= j < |names| ==> k[j] == CellAt(t, i, names[j])
  {
    seq(|names|, j requires 0 <= j < |names| => CellAt(t, i, names[j]))
  }

  /** Looking the key columns up by position or by name gives the same tuple. */
  lemma RowKeyAt(t: Table, i: nat, names: seq<string>)
    requires Wf(t) && i < |t.rows| && Indices(t.header, names).Some?
    ensures KeyOf(t.rows[i], Indices(t.header, names).value) == RowKey(t, i, names)
  {
    var idxs := Indices(t.header, names).value;
    forall j | 0 <= j < |names|
      ensures KeyOf(t.rows[i], idxs)[j] == RowKey(t, i, names)[j]
    {
      IndexOfDistinct(t.header, idxs[j]);
    }
  }

  /** Two rows that agree on every named column have the same key tuple. */
  lemma SameRowKey(a: Table, i: nat, b: Table, j: nat, names: seq<string>)
    requires i < |a.rows| && j < |b.rows|
    requires forall k :: 0 <= k < |names| ==> CellAt(a, i, names[k]) == CellAt(b, j, names[k])
    ensures RowKey(a, i, names) == RowKey(b, j, names)
  {
  }

  /** `df[name] = column`: replaces the column when present, otherwise appends it. */
  function SetColumn(t: Table, name: string, column: seq<Value>): (r: Table)
    requires Wf(t) && |column| == |t.rows|
    ensures Wf(r) && |r.rows| == |t.rows|
    ensures r.header == if name in t.header then t.header else t.header + [name]
    ensures forall i, k :: 0 <= i < |r.rows| && 0 <= k < |r.header| ==>
      r.rows[i][k] == if r.header[k] == name then column[i] else t.rows[i][k]
  {
    match IndexOf(t.header, name)
    case Some(k) =>
      Table(t.header, seq(|t.rows|, i requires 0 <= i < |t.rows| => t.rows[i][k := column[i]]))
    case None =>
      Table(t.header + [name], seq(|t.rows|, i requires 0 <= i < |t.rows| => t.rows[i] + [column[i]]))
  }

  lemma IndexOfAppend(names: seq<string>, name: string, c: string)
    requires name !in names
    ensures IndexOf(names + [name], c) == if c == name then Some(|names|) else IndexOf(names, c)
  {
    if names != [] {
      assert (names + [name])[1..] == names[1..] + [name];
      IndexOfAppend(names[1..], name, c);
    }
  }

  /** Reading a cell after `df[name] = column`: the new value in that column, the old one elsewhere. */
  lemma SetColumnCellAt(t: Table, name: string, column: seq<Value>, i: nat, c: string)
    requires Wf(t) && |column| == |t.rows| && i < |t.rows|
    ensures CellAt(SetColumn(t, name, column), i, c) == if c == name then column[i] else CellAt(t, i, c)
  {
    var r := SetColumn(t, name, column);
    if name !in t.header {
      IndexOfAppend(t.header, name, c);
    }
    match IndexOf(r.header, c)
    case Some(k) =>
      if c != name {
        assert k < |t.header| && t.header[k] == c;
        IndexOfDistinct(t.header, k);
      }
    case None =>
  }

  /** Assigning a column twice leaves only the second assignment. */
  lemma SetColumnTwice(t: Table, name: string, first: seq<Value>, second: seq<Value>)
    requires Wf(t) && |first| == |t.rows| && |second| == |t.rows|
    ensures SetColumn(SetColumn(t, name, first), name, second) == SetColumn(t, name, second)
  {
    var a := SetColumn(SetColumn(t, name, first), name, second);
    var b := SetColumn(t, name, second);
    if name !in t.header {
      IndexOfAppend(t.header, name, name);
    }
    forall i | 0 <= i < |t.rows| ensures a.rows[i] == b.rows[i] {
      assert |a.rows[i]| == |b.rows[i]|;
    }
  }

  function Remove<T>(s: seq<T>, k: nat): (r: seq<T>)
    requires k < |s|
    ensures |r| == |s| - 1
    ensures forall j :: 0 <= j < |r| ==> r[j] == if j < k then s[j] else s[j + 1]
  {
    s[..k] + s[k + 1..]
  }

  lemma RemoveDistinct<T>(s: seq<T>, k: nat)
    requires Distinct(s) && k < |s|
    ensures Distinct(Remove(s, k))
    ensures forall x :: x in Remove(s, k) <==> x in s && x != s[k]
  {
    var r := Remove(s, k);
    forall x | x in s && x != s[k] ensures x in r {
      var j :| 0 <= j < |s| && s[j] == x;
      assert r[if j < k then j else j - 1] == x;
    }
  }

  /** `df.drop(columns=name)` for a column the frame has. */
  function DropColumn(t: Table, name: string): (r: Table)
    requires Wf(t) && name in t.header
    ensures Wf(r) && |r.rows| == |t.rows| && name !in r.header
    ensures forall n :: n in r.header <==> n in t.header && n != name
  {
    var k := IndexOf(t.header, name).value;
    RemoveDistinct(t.header, k);
    Table(Remove(t.header, k), seq(|t.rows|, i requires 0 <= i < |t.rows| => Remove(t.rows[i], k)))
  }

  /** Reading a cell after dropping a column: NaN in that column, the old value elsewhere. */
  lemma DropColumnCellAt(t: Table, name: string, i: nat, c: string)
    requires Wf(t) && name in t.header && i < |t.rows|
    ensures CellAt(DropColumn(t, name), i, c) == if c == name then Missing else CellAt(t, i, c)
  {
    var k := IndexOf(t.header, name).value;
    var r := DropColumn(t, name);
    match IndexOf(r.header, c)
    case Some(p) =>
      var q := if p < k then p else p + 1;
      assert r.header[p] == t.header[q] && r.rows[i][p] == t.rows[i][q];
      IndexOfDistinct(t.header, q);
    case None =>
  }

  /** Adding a column the frame lacks and dropping it again gives the frame back. */
  lemma DropSetColumn(t: Table, name: string, column: seq<Value>)
    requires Wf(t) && |column| == |t.rows| && name !in t.header
    ensures name in SetColumn(t, name, column).header
    ensures DropColumn(SetColumn(t, name, column), name) == t
  {
    var s := SetColumn(t, name, column);
    IndexOfAppend(t.header, name, name);
    var r := DropColumn(s, name);
    assert r.header == t.header;
    forall i | 0 <= i < |t.rows| ensures r.rows[i] == t.rows[i] {
      assert s.rows[i] == t.rows[i] + [column[i]];
    }
  }

  /** The order of `sort_values(by=...)` on rows, given the positions of the key columns. */
  function RowOrder(idxs: seq<nat>): (seq<Value>, seq<Value>) -> bool {
    (a: seq<Value>, b: seq<Value>) => KeyLe(KeyOf(a, idxs), KeyOf(b, idxs))
  }

  lemma RowOrderTotalPreorder(idxs: seq<nat>)
    ensures Sorting.Total(RowOrder(idxs)) && Sorting.Transitive(RowOrder(idxs))
  {
    var le := RowOrder(idxs);
    forall a, b ensures le(a, b) || le(b, a) {
      KeyLeTotal(KeyOf(a, idxs), KeyOf(b, idxs));
    }
    forall a, b, c | le(a, b) && le(b, c) ensures le(a, c) {
      KeyLeTransitive(KeyOf(a, idxs), KeyOf(b, idxs), KeyOf(c, idxs));
    }
  }

  /** `df.sort_values(by=names)`: a KeyError when a key column is missing. */
  function SortBy(t: Table, names: seq<string>): (r: Result<Table>)
    requires Wf(t)
  {
    match Indices(t.header, names)
    case None => Err("KeyError: a sort column is missing")
    case Some(idxs) => Ok(Table(t.header, Sorting.Sort(t.rows, RowOrder(idxs))))
  }

  /** The rows are in non-decreasing order of their cells in the named columns. */
  predicate SortedBy(t: Table, names: seq<string>) {
    forall i, j :: 0 <= i < j < |t.rows| ==> KeyLe(RowKey(t, i, names), RowKey(t, j, names))
  }

  lemma SortBySorted(t: Table, names: seq<string>)
    requires Wf(t) && SortBy(t, names).Ok?
    ensures SortedBy(SortBy(t, names).value, names)
  {
    var idxs := Indices(t.header, names).value;
    var s := SortBy(t, names).value;
    RowOrderTotalPreorder(idxs);
    Sorting.SortSorted(t.rows, RowOrder(idxs));
    SortByWf(t, names);
    forall i | 0 <= i < |s.rows| ensures KeyOf(s.rows[i], idxs) == RowKey(s, i, names) {
      RowKeyAt(s, i, names);
    }
  }

  /** Sorting rows that are already in order leaves the frame as it is. */
  lemma SortByOfSorted(t: Table, names: seq<string>)
    requires Wf(t) && Indices(t.header, names).Some? && SortedBy(t, names)
    ensures SortBy(t, names) == Ok(t)
  {
    var idxs := Indices(t.header, names).value;
    forall i | 0 <= i < |t.rows| ensures KeyOf(t.rows[i], idxs) == RowKey(t, i, names) {
      RowKeyAt(t, i, names);
    }
    assert Sorting.Sorted(t.rows, RowOrder(idxs));
    Sorting.SortOfSorted(t.rows, RowOrder(idxs));
  }

  lemma SortByWf(t: Table, names: seq<string>)
    requires Wf(t) && SortBy(t, names).Ok?
    ensures Wf(SortBy(t, names).value) && SortBy(t, names).value.header == t.header
    ensures multiset(SortBy(t, names).value.rows) == multiset(t.rows)
  {
    var rows := SortBy(t, names).value.rows;
    forall i | 0 <= i < |rows| ensures |rows[i]| == |t.header| {
      assert rows[i] in multiset(t.rows);
    }
  }
}
