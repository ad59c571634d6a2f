/**
 * `validate_on_unequal_cells`, shared by the upload and the offline validation
 * scripts: run the change checker on every changed cell, and when some change is
 * rejected, report each rejected cell (1-based row and column, its value) with the
 * reason popped from the front of the error queue.
 */
module Aggregation {
  import opened Cells
  import opened Frames
  import opened CellDiff
  import opened ErrorQueues

  /** What the change checker does with one cell: accept it, reject it with a reason, or raise. */
  datatype Verdict = Accept | Reject(reason: string) | Raise(message: string)

  /** A change checker: the verdict on a value written into a named column. */
  type Checker = (Value, string) -> Verdict

  /** One printed block of the failure report. */
  datatype Report = Report(row: nat, col: nat, value: Value, reason: string)

  /** The exception that stopped the run, or the returned flag with the printed reports. */
  datatype Outcome = Raised(message: string) | Checked(valid: bool, reports: seq<Report>)

  predicate AllInBounds(t: Table, coords: seq<Coord>) {
    forall k :: 0 <= k < |coords| ==> InBounds(t, coords[k])
  }

  /** The checker's verdict on each listed cell of `t`. */
  function Verdicts(check: Checker, t: Table, coords: seq<Coord>): (vs: seq<Verdict>)
    requires Wf(t) && AllInBounds(t, coords)
    ensures |vs| == |coords|
  {
    seq(|coords|, k requires 0 <= k < |coords| =>
      check(t.rows[coords[k].row][coords[k].col], t.header[coords[k].col]))
  }

  /** Position of the first raising verdict, or `|vs|` when none raises. */
  function FirstRaise(vs: seq<Verdict>): (n: nat)
    ensures n <= |vs|
    ensures forall k :: 0 <= k < n ==> !vs[k].Raise?
    ensures n < |vs| ==> vs[n].Raise?
  {
    if vs == [] then 0 else if vs[0].Raise? then 0 else 1 + FirstRaise(vs[1..])
  }

  /** The reasons the verdicts at positions `i` to `j - 1` append to the queue, in order. */
  function Reasons(vs: seq<Verdict>, i: nat, j: nat): seq<string>
    requires i <= j <= |vs|
    decreases j - i
  {
    if i == j then []
    else (if vs[i].Reject? then [vs[i].reason] else []) + Reasons(vs, i + 1, j)
  }

  /** The report block for the cell at `c`. */
  function ReportAt(t: Table, c: Coord, reason: string): Report
    requires Wf(t) && InBounds(t, c)
  {
    Report(c.row + 1, c.col + 1, t.rows[c.row][c.col], reason)
  }

  /**
   * The report for the cells from position `x` on: each rejected cell takes the
   * reason at the front of `queue`. Also returns what is left of the queue.
   */
  function Drain(t: Table, coords: seq<Coord>, vs: seq<Verdict>, x: nat, queue: seq<string>): (r: (seq<Report>, seq<string>))
    requires Wf(t) && AllInBounds(t, coords) && |vs| == |coords| && x <= |vs|
    requires |Reasons(vs, x, |vs|)| <= |queue|
    ensures |r.0| == |Reasons(vs, x, |vs|)|
    ensures r.1 == queue[|Reasons(vs, x, |vs|)|..]
    decreases |vs| - x
  {
    if x == |vs| then ([], queue)
    else if vs[x].Reject? then
      var rest := Drain(t, coords, vs, x + 1, queue[1..]);
      ([ReportAt(t, coords[x], queue[0])] + rest.0, rest.1)
    else Drain(t, coords, vs, x + 1, queue)
  }

  /** Reference report: every rejected cell from `x` on, in order, with the reason of its own verdict. */
  function OwnReports(t: Table, coords: seq<Coord>, vs: seq<Verdict>, x: nat): seq<Report>
    requires Wf(t) && AllInBounds(t, coords) && |vs| == |coords| && x <= |vs|
    decreases |vs| - x
  {
    if x == |vs| then []
    else (if vs[x].Reject? then [ReportAt(t, coords[x], vs[x].reason)] else []) + OwnReports(t, coords, vs, x + 1)
  }

  /**
   * The queue a run leaves behind and its outcome, for a queue that held `pending`
   * before the run.
   */
  function Aggregate(pending: seq<string>, vs: seq<Verdict>, coords: seq<Coord>, t: Table): (seq<string>, Outcome)
    requires Wf(t) && AllInBounds(t, coords) && |vs| == |coords|
  {
    var n := FirstRaise(vs);
    var queued := pending + Reasons(vs, 0, n);
    if n < |vs| then (queued, Raised(vs[n].message))
    else if forall k :: 0 <= k < |vs| ==> vs[k].Accept? then (queued, Checked(true, []))
    else
      var r := Drain(t, coords, vs, 0, queued);
      (r.1, Checked(false, r.0))
  }

  /** No listed cell of `t` makes `check` raise. */
  predicate NoneRaise(check: Checker, t: Table, coords: seq<Coord>)
    requires Wf(t) && AllInBounds(t, coords)
  {
    forall k :: 0 <= k < |coords| ==> !check(t.rows[coords[k].row][coords[k].col], t.header[coords[k].col]).Raise?
  }

  /** `check` accepts every listed cell of `t`. */
  predicate AllAccepted(check: Checker, t: Table, coords: seq<Coord>)
    requires Wf(t) && AllInBounds(t, coords)
  {
    forall k :: 0 <= k < |coords| ==> check(t.rows[coords[k].row][coords[k].col], t.header[coords[k].col]) == Accept
  }

  /** `len(ERROR_MESSAGES) is 0 and res is True`: the condition under which the upload goes ahead. */
  predicate UploadGate(r: (seq<string>, Outcome)) {
    r.0 == [] && r.1.Checked? && r.1.valid
  }

  /**
   * The first loop: check each cell in turn, appending a reason per rejection, until
   * the first raise.
   */
  method CheckCells(q: ErrorQueue, check: Checker, coords: seq<Coord>, t: Table) returns (raised: Option<string>, valid: seq<bool>)
    requires Wf(t) && AllInBounds(t, coords)
    modifies q
    ensures var vs := Verdicts(check, t, coords);
      q.messages == old(q.messages) + Reasons(vs, 0, FirstRaise(vs))
    ensures var vs := Verdicts(check, t, coords);
      raised == if FirstRaise(vs) < |vs| then Some(vs[FirstRaise(vs)].message) else None
    ensures var vs := Verdicts(check, t, coords);
      raised.None? ==> |valid| == |vs| && forall i :: 0 <= i < |vs| ==> (valid[i] <==> vs[i].Accept?)
  {
    ghost var vs := Verdicts(check, t, coords);
    ghost var n := FirstRaise(vs);
    valid := [];
    var k := 0;
    while k < |coords|
      invariant 0 <= k <= n && |valid| == k
      invariant forall i :: 0 <= i < k ==> (valid[i] <==> vs[i].Accept?)
      invariant q.messages + Reasons(vs, k, n) == old(q.messages) + Reasons(vs, 0, n)
    {
      var c := coords[k];
      var v := check(t.rows[c.row][c.col], t.header[c.col]);
      assert v == vs[k];
      if v.Raise? {
        return Some(v.message), valid;
      }
      if v.Reject? {
        q.Append(v.reason);
      }
      valid := valid + [v.Accept?];
      k := k + 1;
    }
    return None, valid;
  }

  /**
   * The second loop: for every rejected cell, in order, pop the reason at the front
   * of the queue and report it with the cell.
   */
  method ReportRejected(q: ErrorQueue, ghost vs: seq<Verdict>, valid: seq<bool>, coords: seq<Coord>, t: Table)
    returns (reports: seq<Report>)
    requires Wf(t) && AllInBounds(t, coords) && |vs| == |coords| == |valid|
    requires forall i :: 0 <= i < |vs| ==> (valid[i] <==> !vs[i].Reject?)
    requires |Reasons(vs, 0, |vs|)| <= |q.messages|
    modifies q
    ensures (reports, q.messages) == Drain(t, coords, vs, 0, old(q.messages))
  {
    ghost var queued := q.messages;
    reports := [];
    var x := 0;
    while x < |valid|
      invariant 0 <= x <= |valid|
      invariant |Reasons(vs, x, |vs|)| <= |q.messages|
      invariant reports + Drain(t, coords, vs, x, q.messages).0 == Drain(t, coords, vs, 0, queued).0
      invariant Drain(t, coords, vs, x, q.messages).1 == Drain(t, coords, vs, 0, queued).1
    {
      if !valid[x] {
        var reason := q.PopFront();
        var c := coords[x];
        reports := reports + [Report(c.row + 1, c.col + 1, t.rows[c.row][c.col], reason)];
      }
      x := x + 1;
    }
    assert reports + [] == reports;
  }

  /**
   * Each cell is checked in turn; the first raise ends the run. Otherwise, when some
   * change was rejected, every rejected cell is reported with the reason at the front
   * of the queue.
   */
  method ValidateOnUnequalCells(q: ErrorQueue, check: Checker, coords: seq<Coord>, t: Table) returns (out: Outcome)
    requires Wf(t) && AllInBounds(t, coords)
    modifies q
    ensures (q.messages, out) == Aggregate(old(q.messages), Verdicts(check, t, coords), coords, t)
  {
    ghost var vs := Verdicts(check, t, coords);
    var raised, valid := CheckCells(q, check, coords, t);
    if raised.Some? {
      return Raised(raised.value);
    }
    if forall i :: 0 <= i < |valid| ==> valid[i] {
      return Checked(true, []);
    }
    var reports := ReportRejected(q, vs, valid, coords, t);
    return Checked(false, reports);
  }

  /** The run raises exactly when some verdict raises, with the first raised message. */
  lemma AggregateRaises(pending: seq<string>, vs: seq<Verdict>, coords: seq<Coord>, t: Table)
    requires Wf(t) && AllInBounds(t, coords) && |vs| == |coords|
    ensures Aggregate(pending, vs, coords, t).1.Raised? <==> exists k :: 0 <= k < |vs| && vs[k].Raise?
    ensures Aggregate(pending, vs, coords, t).1.Raised? ==>
      exists k :: 0 <= k < |vs| && vs[k] == Raise(Aggregate(pending, vs, coords, t).1.message) &&
        forall i :: 0 <= i < k ==> !vs[i].Raise?
  {
    var n := FirstRaise(vs);
    if n < |vs| {
      assert vs[n].Raise?;
    }
  }

  /** When nothing raises, the returned flag is true exactly when every change was accepted. */
  lemma AggregateValid(pending: seq<string>, vs: seq<Verdict>, coords: seq<Coord>, t: Table)
    requires Wf(t) && AllInBounds(t, coords) && |vs| == |coords|
    ensures Aggregate(pending, vs, coords, t).1.Checked? ==>
      (Aggregate(pending, vs, coords, t).1.valid <==> forall k :: 0 <= k < |vs| ==> vs[k].Accept?)
  {
  }

  lemma {:induction false} DrainOwn(t: Table, coords: seq<Coord>, vs: seq<Verdict>, x: nat, rest: seq<string>)
    requires Wf(t) && AllInBounds(t, coords) && |vs| == |coords| && x <= |vs|
    ensures Drain(t, coords, vs, x, Reasons(vs, x, |vs|) + rest) == (OwnReports(t, coords, vs, x), rest)
    decreases |vs| - x
  {
    if x < |vs| {
      DrainOwn(t, coords, vs, x + 1, rest);
      if vs[x].Reject? {
        var queue := Reasons(vs, x, |vs|) + rest;
        assert queue[0] == vs[x].reason && queue[1..] == Reasons(vs, x + 1, |vs|) + rest;
      } else {
        assert Reasons(vs, x, |vs|) == Reasons(vs, x + 1, |vs|);
        assert OwnReports(t, coords, vs, x) == OwnReports(t, coords, vs, x + 1);
      }
    }
  }

  lemma {:induction false} NoRejectNoReasons(vs: seq<Verdict>, i: nat, j: nat)
    requires i <= j <= |vs|
    requires forall k :: i <= k < j ==> !vs[k].Reject?
    ensures Reasons(vs, i, j) == []
    decreases j - i
  {
    if i < j {
      NoRejectNoReasons(vs, i + 1, j);
    }
  }

  /**
   * Starting from an empty queue, the report lists the rejected cells in order, each
   * with the reason its own check gave, and leaves the queue empty.
   */
  lemma AggregateReportsAlign(vs: seq<Verdict>, coords: seq<Coord>, t: Table)
    requires Wf(t) && AllInBounds(t, coords) && |vs| == |coords|
    requires forall k :: 0 <= k < |vs| ==> !vs[k].Raise?
    requires exists k :: 0 <= k < |vs| && vs[k].Reject?
    ensures Aggregate([], vs, coords, t) == ([], Checked(false, OwnReports(t, coords, vs, 0)))
  {
    assert FirstRaise(vs) == |vs|;
    var k :| 0 <= k < |vs| && vs[k].Reject?;
    assert !vs[k].Accept?;
    DrainOwn(t, coords, vs, 0, []);
    assert [] + Reasons(vs, 0, |vs|) == Reasons(vs, 0, |vs|) + [];
  }

  /**
   * The upload goes ahead exactly when the queue was empty beforehand and every
   * change is accepted.
   */
  lemma UploadGateIff(pending: seq<string>, vs: seq<Verdict>, coords: seq<Coord>, t: Table)
    requires Wf(t) && AllInBounds(t, coords) && |vs| == |coords|
    ensures UploadGate(Aggregate(pending, vs, coords, t)) <==>
      pending == [] && forall k :: 0 <= k < |vs| ==> vs[k].Accept?
  {
    if forall k :: 0 <= k < |vs| ==> vs[k].Accept? {
      assert FirstRaise(vs) == |vs|;
      NoRejectNoReasons(vs, 0, |vs|);
    }
  }
}
