/**
 * First occurrences in a sequence of keys: what pandas `duplicated` marks as not
 * duplicated, what `drop_duplicates` keeps, and the running count `cumsum` builds on it.
 */
module FirstOccurrences {
  import opened Cells
  import opened Frames

  /** Position `i` holds the first occurrence of its key. */
  predicate IsFirst<K(==)>(keys: seq<K>, i: nat)
    requires i < |keys|
  {
    keys[i] !in keys[..i]
  }

  /** The positions of first occurrences, in increasing order. */
  function FirstIndices<K(==)>(keys: seq<K>): (fi: seq<nat>)
    ensures |fi| <= |keys|
    ensures forall j :: 0 <= j < |fi| ==> fi[j] < |keys| && IsFirst(keys, fi[j])
    ensures forall i :: 0 <= i < |keys| && IsFirst(keys, i) ==> i in fi
  {
    if keys == [] then []
    else
      var n := |keys| - 1;
      var p := FirstIndices(keys[..n]);
      assert forall i :: 0 <= i < n ==> keys[..n][..i] == keys[..i];
      if keys[n] in keys[..n] then p else p + [n]
  }

  /** The first occurrences are listed in increasing order of position. */
  lemma {:induction false} FirstIndicesIncreasing<K>(keys: seq<K>)
    ensures forall j, j' :: 0 <= j < j' < |FirstIndices(keys)| ==> FirstIndices(keys)[j] < FirstIndices(keys)[j']
  {
    if keys != [] {
      FirstIndicesIncreasing(keys[..|keys| - 1]);
    }
  }

  /** The elements of `xs` at the positions `idx`, in that order. */
  function Pick<T>(xs: seq<T>, idx: seq<nat>): (r: seq<T>)
    requires forall j :: 0 <= j < |idx| ==> idx[j] < |xs|
    ensures |r| == |idx| && forall j :: 0 <= j < |idx| ==> r[j] == xs[idx[j]]
  {
    seq(|idx|, j requires 0 <= j < |idx| => xs[idx[j]])
  }

  /** The distinct keys in order of first appearance. */
  function Uniq<K(==)>(keys: seq<K>): (u: seq<K>)
    ensures |u| == |FirstIndices(keys)|
  {
    Pick(keys, FirstIndices(keys))
  }

  /** No key is kept twice. */
  lemma UniqDistinct<K>(keys: seq<K>)
    ensures Distinct(Uniq(keys))
  {
    var fi := FirstIndices(keys);
    FirstIndicesIncreasing(keys);
    forall j, j' | 0 <= j < j' < |fi| ensures keys[fi[j]] != keys[fi[j']] {
      assert keys[..fi[j']][fi[j]] == keys[fi[j]];
    }
  }

  /** Some first occurrence at or before `i` holds the key at `i`. */
  lemma {:induction false} FirstAtOrBefore<K>(keys: seq<K>, i: nat)
    requires i < |keys|
    ensures exists j :: 0 <= j < |FirstIndices(keys)| && FirstIndices(keys)[j] <= i && keys[FirstIndices(keys)[j]] == keys[i]
    decreases i
  {
    var fi := FirstIndices(keys);
    if IsFirst(keys, i) {
      var j :| 0 <= j < |fi| && fi[j] == i;
    } else {
      var k :| 0 <= k < i && keys[..i][k] == keys[i];
      FirstAtOrBefore(keys, k);
    }
  }

  /** Every key is kept. */
  lemma UniqCovers<K>(keys: seq<K>)
    ensures forall x :: x in keys <==> x in Uniq(keys)
  {
    forall x | x in keys ensures x in Uniq(keys) {
      var i :| 0 <= i < |keys| && keys[i] == x;
      FirstAtOrBefore(keys, i);
    }
  }

  /** Extending the prefix by one position adds that position exactly when it is a first occurrence. */
  lemma FirstIndicesStep<K>(keys: seq<K>, m: nat)
    requires m < |keys|
    ensures FirstIndices(keys[..m + 1]) == FirstIndices(keys[..m]) + (if IsFirst(keys, m) then [m] else [])
  {
    var next := keys[..m + 1];
    assert next[..m] == keys[..m] && next[m] == keys[m];
  }

  /** As many keys are kept as there are distinct keys. */
  lemma {:induction false} UniqCount<K>(keys: seq<K>)
    ensures |Uniq(keys)| == |set x | x in keys|
  {
    if keys != [] {
      var n := |keys| - 1;
      UniqCount(keys[..n]);
      FirstIndicesStep(keys, n);
      assert keys[..n + 1] == keys;
      assert (set x | x in keys) == (set x | x in keys[..n]) + {keys[n]};
      if IsFirst(keys, n) {
        assert keys[n] !in (set x | x in keys[..n]);
      } else {
        assert (set x | x in keys) == (set x | x in keys[..n]);
      }
    }
  }

  lemma PrefixOfExtension(a: seq<nat>, b: seq<nat>, c: seq<nat>, tail: seq<nat>)
    requires b == a + tail && |b| <= |c| && b == c[..|b|]
    ensures |a| <= |c| && a == c[..|a|]
  {
    assert a == b[..|a|];
  }

  /** The first occurrences found in a prefix are the first of all first occurrences. */
  lemma {:induction false} FirstIndicesPrefix<K>(keys: seq<K>, m: nat)
    requires m <= |keys|
    ensures |FirstIndices(keys[..m])| <= |FirstIndices(keys)|
    ensures FirstIndices(keys[..m]) == FirstIndices(keys)[..|FirstIndices(keys[..m])|]
    decreases |keys| - m
  {
    if m < |keys| {
      FirstIndicesPrefix(keys, m + 1);
      FirstIndicesStep(keys, m);
      PrefixOfExtension(FirstIndices(keys[..m]), FirstIndices(keys[..m + 1]), FirstIndices(keys),
        if IsFirst(keys, m) then [m] else []);
    } else {
      assert keys[..m] == keys;
    }
  }

  lemma IncreasingInjective(s: seq<nat>, a: nat, b: nat)
    requires forall j, j' :: 0 <= j < j' < |s| ==> s[j] < s[j']
    requires a < |s| && b < |s| && s[a] == s[b]
    ensures a == b
  {
  }

  /** The running count of first occurrences reaches `j + 1` at the `j`-th first occurrence. */
  lemma RunningCountAtFirst<K>(keys: seq<K>, j: nat)
    requires j < |FirstIndices(keys)|
    ensures |FirstIndices(keys[..FirstIndices(keys)[j] + 1])| == j + 1
  {
    var fi := FirstIndices(keys);
    var i := fi[j];
    FirstIndicesPrefix(keys, i + 1);
    FirstIndicesStep(keys, i);
    var fm1 := FirstIndices(keys[..i + 1]);
    assert fm1 == FirstIndices(keys[..i]) + [i];
    var c := |fm1|;
    assert fi[c - 1] == fm1[c - 1] == i;
    FirstIndicesIncreasing(keys);
    IncreasingInjective(fi, c - 1, j);
  }

  /** The first position of `x` in `s`, if any. */
  function Position<K(==)>(s: seq<K>, x: K): (r: Option<nat>)
    ensures r.None? <==> x !in s
    ensures r.Some? ==> r.value < |s| && s[r.value] == x && x !in s[..r.value]
  {
    if s == [] then None
    else if s[0] == x then Some(0)
    else match Position(s[1..], x)
      case None => None
      case Some(p) =>
        assert s[..p + 1] == [s[0]] + s[1..][..p];
        Some(p + 1)
  }

  /** In a sequence without repeats, the element at `p` is found at `p`. */
  lemma PositionDistinct<K>(s: seq<K>, p: nat)
    requires Distinct(s) && p < |s|
    ensures Position(s, s[p]) == Some(p)
  {
  }

  lemma PositionExtend<K>(s: seq<K>, x: K, k: K)
    ensures Position(s + [x], k) == if k in s then Position(s, k) else if k == x then Some(|s|) else None
  {
    if k in s {
      var p := Position(s, k).value;
      assert (s + [x])[p] == k && (s + [x])[..p] == s[..p];
    } else if k == x {
      assert (s + [x])[..|s|] == s;
    }
  }
}
