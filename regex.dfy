/**
 * The fragment of Python's `re` that the BIDS name patterns use, as a backtracking
 * matcher: literals, the class `[a-zA-Z0-9]+`, optional groups `( ... )?` and the
 * anchor `$`. `Match` is `re.match`: the pattern must match a prefix of the input.
 */
module Regex {
  import opened Cells

  datatype Item =
    | Lit(text: string)      // a literal such as `_ses-` or `\.nii`
    | AlnumRun               // `[a-zA-Z0-9]+`
    | Opt(group: seq<Item>)  // `( ... )?`
    | End                    // `$`: end of input, or just before a final newline

  function Size(p: seq<Item>): nat
    decreases p
  {
    if p == [] then 0
    else
      assert p[0] in p;
      (match p[0] case Opt(g) => 1 + Size(g) case _ => 1) + Size(p[1..])
  }

  lemma {:induction false} SizeAppend(a: seq<Item>, b: seq<Item>)
    ensures Size(a + b) == Size(a) + Size(b)
  {
    if a == [] {
      assert a + b == b;
    } else {
      assert (a + b)[0] == a[0] && (a + b)[1..] == a[1..] + b;
      SizeAppend(a[1..], b);
    }
  }

  /** Whether the pattern matches a prefix of `s`, trying every choice a backtracking engine tries. */
  predicate Match(p: seq<Item>, s: string)
    decreases |s|, Size(p)
  {
    if p == [] then true
    else match p[0]
      case Lit(t) => t <= s && Match(p[1..], s[|t|..])
      case AlnumRun => s != [] && IsAlnum(s[0]) && (Match(p[1..], s[1..]) || Match(p, s[1..]))
      case Opt(g) => (SizeAppend(g, p[1..]); Match(g + p[1..], s)) || Match(p[1..], s)
      case End => (s == [] || s == "\n") && Match(p[1..], s)
  }

  /** Whatever matches `p + q` leaves a suffix of the input that `q` matches. */
  lemma {:induction false} MatchAppend(p: seq<Item>, q: seq<Item>, s: string)
    requires Match(p + q, s)
    ensures exists k :: 0 <= k <= |s| && Match(q, s[k..])
    decreases |s|, Size(p)
  {
    if p == [] {
      assert p + q == q && s[0..] == s;
    } else {
      var pq := p + q;
      assert pq[0] == p[0] && pq[1..] == p[1..] + q;
      match p[0]
      case Lit(t) =>
        MatchAppend(p[1..], q, s[|t|..]);
        var k :| 0 <= k <= |s[|t|..]| && Match(q, s[|t|..][k..]);
        assert s[|t|..][k..] == s[|t| + k..];
      case AlnumRun =>
        if Match(p[1..] + q, s[1..]) {
          MatchAppend(p[1..], q, s[1..]);
          var k :| 0 <= k <= |s[1..]| && Match(q, s[1..][k..]);
          assert s[1..][k..] == s[1 + k..];
        } else {
          MatchAppend(p, q, s[1..]);
          var k :| 0 <= k <= |s[1..]| && Match(q, s[1..][k..]);
          assert s[1..][k..] == s[1 + k..];
        }
      case Opt(g) =>
        SizeAppend(g, p[1..]);
        if Match(g + (p[1..] + q), s) {
          assert g + (p[1..] + q) == (g + p[1..]) + q;
          MatchAppend(g + p[1..], q, s);
        } else {
          MatchAppend(p[1..], q, s);
        }
      case End =>
        MatchAppend(p[1..], q, s);
    }
  }

  /** A pattern made only of optional groups matches every input (each group is skipped). */
  lemma {:induction false} AllOptionalMatches(p: seq<Item>, s: string)
    requires forall i :: 0 <= i < |p| ==> p[i].Opt?
    ensures Match(p, s)
  {
    if p != [] {
      AllOptionalMatches(p[1..], s);
    }
  }

  // Steps for building a match by hand, one pattern item at a time.

  lemma LitStep(t: string, rest: seq<Item>, u: string)
    requires Match(rest, u)
    ensures Match([Lit(t)] + rest, t + u)
  {
    var p := [Lit(t)] + rest;
    assert p[1..] == rest && (t + u)[|t|..] == u;
  }

  lemma RunStart(c: char, rest: seq<Item>, u: string)
    requires IsAlnum(c) && Match(rest, u)
    ensures Match([AlnumRun] + rest, [c] + u)
  {
    var p := [AlnumRun] + rest;
    assert p[1..] == rest && ([c] + u)[1..] == u;
  }

  lemma RunMore(c: char, rest: seq<Item>, u: string)
    requires IsAlnum(c) && Match([AlnumRun] + rest, u)
    ensures Match([AlnumRun] + rest, [c] + u)
  {
    assert ([c] + u)[1..] == u;
  }

  lemma OptTake(g: seq<Item>, rest: seq<Item>, u: string)
    requires Match(g + rest, u)
    ensures Match([Opt(g)] + rest, u)
  {
    var p := [Opt(g)] + rest;
    assert p[1..] == rest;
  }

  lemma OptSkip(g: seq<Item>, rest: seq<Item>, u: string)
    requires Match(rest, u)
    ensures Match([Opt(g)] + rest, u)
  {
    var p := [Opt(g)] + rest;
    assert p[1..] == rest;
  }
}
