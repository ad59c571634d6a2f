/**
 * `validate_bids_changes.py`: the offline variant of the upload check. It compares
 * the tables and checks every change the same way, but with its own column rules,
 * and only reports whether the changes are ready to be uploaded.
 */
module ValidateBidsChanges {
  import opened Cells
  import opened Frames
  import opened CellDiff
  import opened ErrorQueues
  import opened Aggregation
  import opened BidsNames
  import opened ChangeRules
  import UploadBids

  /**
   * The free-text column list as written: a missing comma fuses `error_message` and
   * `subject.label` into the single entry `error_messagesubject.label`.
   */
  const StringFieldsAsWritten: seq<string> :=
    ["acquisition.label", "project.label", "error_messagesubject.label", "filename", "folder", "template",
     "intendedfor", "mod", "path", "rec", "run", "task"]

  /** The intended free-text column list, with `error_message` and `subject.label` as two entries. */
  const StringFields: seq<string> :=
    ["acquisition.label", "project.label", "error_message", "subject.label", "filename", "folder", "template",
     "intendedfor", "mod", "path", "rec", "run", "task"]

  /** The columns a checker with free-text list `fields` knows. */
  predicate Recognised(fields: seq<string>, column: string) {
    Lower(column) in BoolColumns || Lower(column) == "modality" || Lower(column) in fields
    || column == "session.label" || column == "acquisition.id"
  }

  /**
   * `change_checker` over a given free-text column list. Free-text columns take text
   * only; `session.label` (matched exactly) must fit the session pattern once
   * lower-cased.
   */
  function Check(fields: seq<string>, v: Value, column: string): (r: Verdict)
    ensures r.Raise? <==> !Recognised(fields, column)
    ensures r.Raise? ==> r.message == NotRecognised(column)
    ensures r.Reject? ==> r.reason in Catalogue
  {
    var c := Lower(column);
    if c in BoolColumns then BoolVerdict(v)
    else if c == "modality" then ModalityVerdict(v)
    else if c in fields then (if v.Str? then Accept else Reject(StringMessage))
    else if column == "session.label" then (if IsBidsSessionLabel(Show(v)) then Accept else Reject(BidsMessage))
    else if column == "acquisition.id" then Reject(IdMessage)
    else Raise(NotRecognised(column))
  }

  /** The checker as the script defines it. */
  function ChangeCheckerAsWritten(v: Value, column: string): (r: Verdict)
    ensures r.Raise? <==> !Recognised(StringFieldsAsWritten, column)
  {
    Check(StringFieldsAsWritten, v, column)
  }

  /** The checker with the intended free-text list; the rest of the model uses this one. */
  function ChangeChecker(v: Value, column: string): (r: Verdict)
    ensures r.Raise? <==> !Recognised(StringFields, column)
    ensures r.Reject? ==> r.reason in Catalogue
  {
    Check(StringFields, v, column)
  }

  /** As written, any edit to `subject.label` or `error_message` aborts the run. */
  lemma SubjectLabelRaisesAsWritten(v: Value)
    ensures ChangeCheckerAsWritten(v, "subject.label") == Raise(NotRecognised("subject.label"))
    ensures ChangeCheckerAsWritten(v, "error_message") == Raise(NotRecognised("error_message"))
  {
    UploadBids.LowerRequiredA();
    UploadBids.LowerRequiredC();
  }

  /** With the intended list, no column of the table makes the checker raise. */
  lemma RequiredColumnsRecognised(v: Value, column: string)
    requires column in UploadBids.RequiredColumns
    ensures !ChangeChecker(v, column).Raise?
  {
    UploadBids.LowerRequiredA();
    UploadBids.LowerRequiredB();
    UploadBids.LowerRequiredC();
  }

  /** With the intended list, a subject label takes any text and refuses anything else. */
  lemma SubjectLabelTakesText(v: Value)
    ensures ChangeChecker(v, "subject.label") == if v.Str? then Accept else Reject(StringMessage)
  {
    UploadBids.LowerRequiredA();
  }

  /**
   * A session label is accepted exactly when, lower-cased, it starts with `sub-` and
   * a letter or digit; anything may follow.
   */
  lemma SessionLabelRule(v: Value)
    ensures ChangeChecker(v, "session.label").Accept? <==>
      |Show(v)| > 4 && Lower(Show(v))[..4] == "sub-" && IsAlnum(Lower(Show(v))[4])
  {
    UploadBids.LowerRequiredA();
    SessionLabelAccepted(Show(v));
  }

  /**
   * Unlike the upload checker, this one refuses an emptied free-text cell, and it
   * takes any text as a file name.
   */
  lemma DiffersFromUploadChecker()
    ensures ChangeChecker(Missing, "Path") == Reject(StringMessage)
    ensures UploadBids.ChangeChecker(Missing, "Path") == Accept
    ensures ChangeChecker(Str("notes.txt"), "Filename") == Accept
    ensures UploadBids.ChangeChecker(Str("notes.txt"), "Filename") == Reject(BidsMessage)
  {
    UploadBids.LowerRequiredB();
    var s := "notes.txt";
    if UploadBids.ChangeChecker(Str(s), "Filename").Accept? {
      UploadBids.AcceptedFilenameShape(Str(s));
    }
  }

  /** One line of the provenance log: this script does not record the row. */
  datatype ChangeRecord = ChangeRecord(original: Value, modified: Value, column: string)

  /**
   * `get_unequal_cells`: the differing coordinates, and the provenance log with one
   * record per coordinate, in the same order.
   */
  method GetUnequalCells(a: Table, b: Table) returns (r: Result<seq<Coord>>, log: seq<ChangeRecord>)
    requires Wf(a) && Wf(b)
    ensures r == UnequalCells(a, b)
    ensures r.Err? ==> log == []
    ensures r.Ok? ==> |log| == |r.value|
    ensures r.Ok? ==> forall k :: 0 <= k < |log| ==>
      var c := r.value[k];
      log[k] == ChangeRecord(a.rows[c.row][c.col], b.rows[c.row][c.col], a.header[c.col])
    ensures r.Ok? ==> forall k :: 0 <= k < |log| ==> FillNa(log[k].original) != FillNa(log[k].modified)
  {
    r := UnequalCells(a, b);
    log := [];
    if r.Err? {
      return;
    }
    var coords := r.value;
    var k := 0;
    while k < |coords|
      invariant 0 <= k <= |coords| && |log| == k
      invariant forall i :: 0 <= i < k ==>
        log[i] == ChangeRecord(a.rows[coords[i].row][coords[i].col], b.rows[coords[i].row][coords[i].col],
                               a.header[coords[i].col])
    {
      var c := coords[k];
      log := log + [ChangeRecord(a.rows[c.row][c.col], b.rows[c.row][c.col], a.header[c.col])];
      k := k + 1;
    }
    assert forall i :: 0 <= i < |coords| ==> Differs(a, b, coords[i]);
  }

  /** How a run of the script ends. */
  datatype RunOutcome = Aborted(message: string) | NotReady | Ready

  /**
   * The script's run: it announces the changes ready exactly when both tables are
   * well formed, have the same shape, the queue was empty and every change is accepted.
   */
  method Run(q: ErrorQueue, original: Table, edited: Table) returns (out: RunOutcome)
    requires Wf(original) && Wf(edited)
    modifies q
    ensures UploadBids.ReadFlywheelCsv(original).Err? ==> out == Aborted(UploadBids.FormatMessage)
    ensures out == Ready <==>
      UploadBids.ReadFlywheelCsv(original).Ok? && UploadBids.ReadFlywheelCsv(edited).Ok? &&
      UnequalCells(original, edited).Ok? && old(q.messages) == [] &&
      var coords := UnequalCells(original, edited).value;
      forall k :: 0 <= k < |coords| ==>
        ChangeChecker(edited.rows[coords[k].row][coords[k].col], edited.header[coords[k].col]) == Accept
    ensures UploadBids.ReadFlywheelCsv(original).Ok? && UploadBids.ReadFlywheelCsv(edited).Err? ==>
      out == Aborted(UploadBids.FormatMessage)
    ensures UploadBids.ReadFlywheelCsv(original).Ok? && UploadBids.ReadFlywheelCsv(edited).Ok? && UnequalCells(original, edited).Err? ==>
      out == Aborted(UnequalCells(original, edited).error)
    ensures UploadBids.ReadFlywheelCsv(original).Ok? && UploadBids.ReadFlywheelCsv(edited).Ok? &&
      UnequalCells(original, edited).Ok? &&
      (var coords := UnequalCells(original, edited).value;
       exists k :: 0 <= k < |coords| && ChangeChecker(edited.rows[coords[k].row][coords[k].col], edited.header[coords[k].col]).Raise?)
      ==> (out.Aborted? &&
           var coords := UnequalCells(original, edited).value;
           exists k :: 0 <= k < |coords| &&
             ChangeChecker(edited.rows[coords[k].row][coords[k].col], edited.header[coords[k].col]) == Raise(out.message) &&
             forall i :: 0 <= i < k ==> !ChangeChecker(edited.rows[coords[i].row][coords[i].col], edited.header[coords[i].col]).Raise?)
    ensures (UploadBids.ReadFlywheelCsv(original).Ok? && UploadBids.ReadFlywheelCsv(edited).Ok? && UnequalCells(original, edited).Ok? &&
             NoneRaise(ChangeChecker, edited, UnequalCells(original, edited).value) &&
             !(old(q.messages) == [] && AllAccepted(ChangeChecker, edited, UnequalCells(original, edited).value))) ==>
      out == NotReady
  {
    var a := UploadBids.ReadFlywheelCsv(original);
    if a.Err? {
      return Aborted(a.error);
    }
    var b := UploadBids.ReadFlywheelCsv(edited);
    if b.Err? {
      return Aborted(b.error);
    }
    var unequal, log := GetUnequalCells(original, edited);
    if unequal.Err? {
      return Aborted(unequal.error);
    }
    var coords := unequal.value;
    ghost var pending := q.messages;
    ghost var vs := Verdicts(ChangeChecker, edited, coords);
    assert forall k :: 0 <= k < |coords| ==>
      vs[k] == ChangeChecker(edited.rows[coords[k].row][coords[k].col], edited.header[coords[k].col]);
    var res := ValidateOnUnequalCells(q, ChangeChecker, coords, edited);
    UploadGateIff(pending, vs, coords, edited);
    AggregateRaises(pending, vs, coords, edited);
    if res.Raised? {
      return Aborted(res.message);
    }
    if q.messages == [] && res.valid {
      return Ready;
    }
    return NotReady;
  }
}
