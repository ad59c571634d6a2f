/**
 * `utils.py`: the list <-> ", "-joined string codec used for the `groups` cell, and
 * the subset-checked, sorted table read.
 */
module Utils {
  import opened Cells
  import opened Frames
  import Sorting

  /** `sep.join(ls)`. */
  function Join(ls: seq<string>, sep: string): string {
    if ls == [] then "" else if |ls| == 1 then ls[0] else ls[0] + sep + Join(ls[1..], sep)
  }

  function CountChar(s: string, c: char): nat {
    if s == [] then 0 else (if s[0] == c then 1 else 0) + CountChar(s[1..], c)
  }

  /** `s.split(',')`: the pieces between commas, in order. */
  function Split(s: string): (r: seq<string>)
    ensures |r| == CountChar(s, ',') + 1
    ensures forall i :: 0 <= i < |r| ==> ',' !in r[i]
  {
    if s == [] then [""]
    else if s[0] == ',' then [""] + Split(s[1..])
    else
      var rest := Split(s[1..]);
      [[s[0]] + rest[0]] + rest[1..]
  }

  /** Joining the pieces with commas gives back the string. */
  lemma {:induction false} SplitJoin(s: string)
    ensures Join(Split(s), ",") == s
  {
    if s != [] {
      SplitJoin(s[1..]);
      var rest := Split(s[1..]);
      if s[0] != ',' {
        if |rest| == 1 {
          assert s == [s[0]] + rest[0];
        } else {
          assert rest == [rest[0]] + rest[1..];
          assert Join(rest, ",") == rest[0] + "," + Join(rest[1..], ",");
          assert s == [s[0]] + s[1..];
        }
      } else {
        assert s == [s[0]] + s[1..];
      }
    }
  }

  lemma {:induction false} SplitNoComma(s: string)
    requires ',' !in s
    ensures Split(s) == [s]
  {
    if s != [] {
      SplitNoComma(s[1..]);
      assert s == [s[0]] + s[1..];
    }
  }

  lemma {:induction false} SplitWithPrefix(p: string, s: string)
    requires ',' !in p
    ensures Split(p + "," + s) == [p] + Split(s)
  {
    if p == [] {
      assert p + "," + s == [','] + s;
      assert (p + "," + s)[1..] == s;
    } else {
      SplitWithPrefix(p[1..], s);
      assert (p + "," + s)[0] == p[0] && (p + "," + s)[1..] == p[1..] + "," + s;
      assert [p[0]] + p[1..] == p;
    }
  }

  /** Number of leading characters `strip()` removes. */
  function LeadingSpace(s: string): (n: nat)
    ensures n <= |s|
    ensures forall i :: 0 <= i < n ==> IsSpace(s[i])
    ensures n < |s| ==> !IsSpace(s[n])
  {
    if s == [] || !IsSpace(s[0]) then 0 else 1 + LeadingSpace(s[1..])
  }

  /** Number of trailing characters `strip()` removes. */
  function TrailingSpace(s: string): (n: nat)
    ensures n <= |s|
    ensures forall i :: |s| - n <= i < |s| ==> IsSpace(s[i])
    ensures n < |s| ==> !IsSpace(s[|s| - n - 1])
  {
    if s == [] || !IsSpace(s[|s| - 1]) then 0 else 1 + TrailingSpace(s[..|s| - 1])
  }

  /** `s.strip()`: the middle of `s` with no white space at either end. */
  function Strip(s: string): (r: string)
    ensures r == [] || (!IsSpace(r[0]) && !IsSpace(r[|r| - 1]))
    ensures exists i, j ::
      (0 <= i <= j <= |s| && r == s[i..j] &&
       (forall k :: 0 <= k < i ==> IsSpace(s[k])) && (forall k :: j <= k < |s| ==> IsSpace(s[k])))
  {
    var i := LeadingSpace(s);
    var rest := s[i..];
    var j := |rest| - TrailingSpace(rest);
    assert rest[..j] == s[i..i + j];
    s[i..][..j]
  }

  /** A string `strip()` leaves as it is. */
  predicate Unpadded(s: string) {
    s == [] || (!IsSpace(s[0]) && !IsSpace(s[|s| - 1]))
  }

  lemma StripUnpadded(s: string)
    requires Unpadded(s)
    ensures Strip(s) == s
  {
  }

  lemma StripSpacePrefixed(s: string)
    requires Unpadded(s)
    ensures Strip(" " + s) == s
  {
    var t := " " + s;
    assert t[1..] == s;
    assert LeadingSpace(t) == 1 + LeadingSpace(s);
  }

  /** `relist_item`'s result: the stripped pieces of a string, or a non-string unchanged. */
  datatype Relisted = Pieces(items: seq<string>) | Unchanged(v: Value)

  /** `relist_item`. */
  function RelistItem(v: Value): (r: Relisted)
    ensures v.Str? ==> r.Pieces? && |r.items| == CountChar(v.s, ',') + 1
    ensures v.Str? ==> |r.items| == |Split(v.s)| && forall i :: 0 <= i < |r.items| ==> r.items[i] == Strip(Split(v.s)[i])
    ensures v.Str? ==> forall i :: 0 <= i < |r.items| ==> Unpadded(r.items[i]) && ',' !in r.items[i]
    ensures !v.Str? ==> r == Unchanged(v)
  {
    if v.Str? then
      var ps := Split(v.s);
      Pieces(seq(|ps|, i requires 0 <= i < |ps| => Strip(ps[i])))
    else Unchanged(v)
  }

  /** The argument of `unlist_item`: a Python list (mutable) or any other value. */
  datatype Arg = ListArg(items: array<string>) | ScalarArg(v: Value)

  lemma StrLeTotalOrder()
    ensures Sorting.Total(StrLe) && Sorting.Transitive(StrLe) && Sorting.Antisymmetric(StrLe)
  {
    forall x, y ensures StrLe(x, y) || StrLe(y, x) {
      StrLeTotal(x, y);
    }
    forall x, y, z | StrLe(x, y) && StrLe(y, z) ensures StrLe(x, z) {
      StrLeTransitive(x, y, z);
    }
    forall x, y | StrLe(x, y) && StrLe(y, x) ensures x == y {
      StrLeAntisymmetric(x, y);
    }
  }

  lemma SortLength(ls: seq<string>)
    ensures |Sorting.Sort(ls, StrLe)| == |ls|
  {
    assert |Sorting.Sort(ls, StrLe)| == |multiset(Sorting.Sort(ls, StrLe))| == |multiset(ls)|;
  }

  /**
   * `ls.sort()`: the list's elements are rearranged, in place, into ascending string
   * order. The order is computed by `Sorting.Sort` and written back cell by cell.
   */
  method SortInPlace(a: array<string>)
    modifies a
    ensures a[..] == Sorting.Sort(old(a[..]), StrLe)
    ensures Sorting.Sorted(a[..], StrLe) && multiset(a[..]) == old(multiset(a[..]))
  {
    var sorted := Sorting.Sort(a[..], StrLe);
    SortLength(a[..]);
    var k := 0;
    while k < a.Length
      invariant 0 <= k <= a.Length && |sorted| == a.Length
      invariant forall i :: 0 <= i < k ==> a[i] == sorted[i]
    {
      a[k] := sorted[k];
      k := k + 1;
    }
    assert a[..] == sorted;
    UnlistOrder(old(a[..]));
  }

  /**
   * `unlist_item`: a list is sorted in place and returned joined by ", "; anything
   * else gives NaN.
   */
  method UnlistItem(arg: Arg) returns (r: Value)
    modifies if arg.ListArg? then {arg.items} else {}
    ensures arg.ListArg? ==> arg.items[..] == Sorting.Sort(old(arg.items[..]), StrLe)
    ensures arg.ListArg? ==> r == Str(Join(arg.items[..], ", "))
    ensures arg.ScalarArg? ==> r == Missing
  {
    if arg.ScalarArg? {
      return Missing;
    }
    SortInPlace(arg.items);
    return Str(Join(arg.items[..], ", "));
  }

  /** The names `unlist_item` joins are in ascending order and are exactly the list's names. */
  lemma UnlistOrder(ls: seq<string>)
    ensures Sorting.Sorted(Sorting.Sort(ls, StrLe), StrLe)
    ensures multiset(Sorting.Sort(ls, StrLe)) == multiset(ls)
  {
    StrLeTotalOrder();
    Sorting.SortSorted(ls, StrLe);
  }

  /** Every item after the first, with the space `", "` leaves in front of it. */
  function SpaceAll(ls: seq<string>): (r: seq<string>)
    ensures |r| == |ls| && forall i :: 0 <= i < |ls| ==> r[i] == " " + ls[i]
  {
    seq(|ls|, i requires 0 <= i < |ls| => " " + ls[i])
  }

  lemma SpaceAllCons(ls: seq<string>)
    requires ls != []
    ensures SpaceAll(ls) == [" " + ls[0]] + SpaceAll(ls[1..])
  {
  }

  lemma SplitSpaced(s: string)
    ensures Split(" " + s) == [" " + Split(s)[0]] + Split(s)[1..]
  {
    assert (" " + s)[1..] == s;
  }

  /** One step of the ", " split: a comma-free head, then a string that splits as `tail` would. */
  lemma SplitCommaSpace(head: string, j: string, tail: seq<string>)
    requires ',' !in head && tail != [] && Split(j) == [tail[0]] + SpaceAll(tail[1..])
    ensures Split(head + ", " + j) == [head] + SpaceAll(tail)
  {
    assert head + ", " + j == head + "," + (" " + j);
    SplitWithPrefix(head, " " + j);
    SplitSpaced(j);
    SpaceAllCons(tail);
  }

  lemma {:induction false} SplitJoinSpaced(ls: seq<string>)
    requires ls != [] && forall i :: 0 <= i < |ls| ==> ',' !in ls[i]
    ensures Split(Join(ls, ", ")) == [ls[0]] + SpaceAll(ls[1..])
  {
    if |ls| == 1 {
      SplitNoComma(ls[0]);
    } else {
      var tail := ls[1..];
      assert forall i :: 0 <= i < |tail| ==> ',' !in tail[i] by {
        forall i | 0 <= i < |tail| ensures ',' !in tail[i] {
          assert tail[i] == ls[i + 1];
        }
      }
      SplitJoinSpaced(tail);
      SplitCommaSpace(ls[0], Join(tail, ", "), tail);
    }
  }

  /** Each piece of the ", " split, stripped, is the name that was joined. */
  lemma RelistPiece(ls: seq<string>, i: nat)
    requires i < |ls| && Unpadded(ls[i])
    requires Split(Join(ls, ", ")) == [ls[0]] + SpaceAll(ls[1..])
    ensures Strip(Split(Join(ls, ", "))[i]) == ls[i]
  {
    if i == 0 {
      StripUnpadded(ls[0]);
    } else {
      assert Split(Join(ls, ", "))[i] == " " + ls[i];
      StripSpacePrefixed(ls[i]);
    }
  }

  /**
   * For a non-empty list of comma-free, unpadded strings, `relist_item` undoes the
   * ", " join of `unlist_item`.
   */
  lemma RelistUnlist(ls: seq<string>)
    requires ls != []
    requires forall i :: 0 <= i < |ls| ==> ',' !in ls[i] && Unpadded(ls[i])
    ensures RelistItem(Str(Join(ls, ", "))) == Pieces(ls)
  {
    var s := Join(ls, ", ");
    SplitJoinSpaced(ls);
    var items := RelistItem(Str(s)).items;
    forall i | 0 <= i < |ls| ensures items[i] == ls[i] {
      RelistPiece(ls, i);
    }
  }

  /** The empty list joins to "", which splits back into one empty name. */
  lemma RelistEmpty()
    ensures RelistItem(Str(Join([], ", "))) == Pieces([""])
  {
    assert Split("") == [""];
  }

  /**
   * What the three `read_flywheel_csv` helpers of `utils.py`, `group_query.py` and
   * `ungroup_query.py` raise: a comma between the two literals makes the exception's
   * argument a pair of strings, so its message is the pair's printed form.
   */
  const FormatMessage: string :=
    "(\"It doesn't look like this csv is correctly formatted\", ' for this flywheel editing process!')"

  /**
   * `read_flywheel_csv` of `utils.py`: every required column must be present (extra
   * columns are allowed); the rows come back sorted by `acquisition.id`.
   */
  function ReadFlywheelCsv(t: Table, required: seq<string>): (r: Result<Table>)
    requires Wf(t)
    ensures r.Ok? <==> (forall c :: c in required ==> c in t.header) && "acquisition.id" in t.header
    ensures r.Ok? ==> r.value.header == t.header && multiset(r.value.rows) == multiset(t.rows)
    ensures r.Ok? ==> Wf(r.value) && SortedBy(r.value, ["acquisition.id"])
  {
    if !(forall c :: c in required ==> c in t.header) then Err(FormatMessage)
    else
      var s := SortBy(t, ["acquisition.id"]);
      if s.Ok? then
        SortByWf(t, ["acquisition.id"]);
        SortBySorted(t, ["acquisition.id"]);
        s
      else s
  }
}
