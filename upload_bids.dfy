/**
 * `upload_bids.py`: compare an edited Flywheel query table with the original, check
 * every changed cell, and upload only when every change is acceptable.
 */
module UploadBids {
  import opened Cells
  import opened Frames
  import opened CellDiff
  import opened ErrorQueues
  import opened Aggregation
  import opened BidsNames
  import opened ChangeRules

  /** The columns of a query table exported for editing. */
  const RequiredColumns: seq<string> :=
    ["acquisition.label", "valid", "acquisition.id", "project.label", "session.label",
     "subject.label", "Filename", "Folder", "IntendedFor", "Mod",
     "Modality", "Path", "Rec", "Run", "Task", "error_message",
     "ignore", "template"]

  const FormatMessage: string := "It doesn't look like this csv is correctly formatted for this flywheel editing process!"

  /** Column names (lower-cased) that take free text. */
  const StringFields: seq<string> :=
    ["acquisition.label", "project.label", "error_message", "subject.label", "folder", "template",
     "intendedfor", "mod", "path", "rec", "task"]

  /**
   * `read_flywheel_csv`: the table is taken as it is exactly when its columns are
   * the required ones; a table it accepts has exactly 18 columns.
   */
  function ReadFlywheelCsv(t: Table): (r: Result<Table>)
    requires Wf(t)
    ensures r.Ok? <==> (set c | c in t.header) == (set c | c in RequiredColumns)
    ensures r.Ok? ==> r.value == t && |t.header| == |RequiredColumns| == 18
    ensures r.Err? ==> r.error == FormatMessage
  {
    if (set c | c in t.header) == (set c | c in RequiredColumns) then
      DistinctCard(t.header);
      DistinctCard(RequiredColumns);
      Ok(t)
    else Err(FormatMessage)
  }

  /** The columns the checker knows: every other column raises. */
  predicate Recognised(column: string) {
    Lower(column) in BoolColumns || Lower(column) == "modality" || Lower(column) in StringFields
    || Lower(column) == "filename" || column == "acquisition.id"
  }

  /**
   * `change_checker`: the verdict on `v` typed into `column`. Column names are
   * compared lower-cased, except `acquisition.id`, which is matched exactly.
   */
  function ChangeChecker(v: Value, column: string): (r: Verdict)
    ensures r.Raise? <==> !Recognised(column)
    ensures r.Raise? ==> r.message == NotRecognised(column)
    ensures r.Reject? ==> r.reason in Catalogue
  {
    var c := Lower(column);
    if c in BoolColumns then BoolVerdict(v)
    else if c == "modality" then ModalityVerdict(v)
    else if c in StringFields then (if v.Str? || v.Missing? then Accept else Reject(StringMessage))
    else if c == "filename" then (if IsBidsFilename(Show(v)) then Accept else Reject(BidsMessage))
    else if column == "acquisition.id" then Reject(IdMessage)
    else Raise(NotRecognised(column))
  }

  /** The acquisition ID can never be changed, whatever is typed. */
  lemma AcquisitionIdLocked(v: Value)
    ensures ChangeChecker(v, "acquisition.id") == Reject(IdMessage)
  {
    assert Lower("acquisition.id") == "acquisition.id";
  }

  // Lower-cased forms of the required column names.

  lemma LowerRequiredA()
    ensures Lower("acquisition.label") == "acquisition.label" && Lower("valid") == "valid"
    ensures Lower("acquisition.id") == "acquisition.id" && Lower("project.label") == "project.label"
    ensures Lower("session.label") == "session.label" && Lower("subject.label") == "subject.label"
  {
  }

  lemma LowerRequiredB()
    ensures Lower("Filename") == "filename" && Lower("Folder") == "folder"
    ensures Lower("IntendedFor") == "intendedfor" && Lower("Mod") == "mod"
    ensures Lower("Modality") == "modality" && Lower("Path") == "path"
  {
  }

  lemma LowerRequiredC()
    ensures Lower("Rec") == "rec" && Lower("Run") == "run" && Lower("Task") == "task"
    ensures Lower("error_message") == "error_message" && Lower("ignore") == "ignore"
    ensures Lower("template") == "template"
  {
  }

  /**
   * Of the table's own columns, exactly `session.label` and `Run` are unknown to the
   * checker: any edit to them aborts the run with an exception.
   */
  lemma RequiredColumnsRaising(v: Value, column: string)
    requires column in RequiredColumns
    ensures ChangeChecker(v, column).Raise? <==> column == "session.label" || column == "Run"
  {
    LowerRequiredA();
    LowerRequiredB();
    LowerRequiredC();
  }

  /** Apart from `acquisition.id`, the case of the column name does not matter. */
  lemma ColumnCaseIgnored(v: Value, c1: string, c2: string)
    requires Lower(c1) == Lower(c2) && c1 != "acquisition.id" && c2 != "acquisition.id"
    ensures ChangeChecker(v, c1).Raise? == ChangeChecker(v, c2).Raise?
    ensures !ChangeChecker(v, c1).Raise? ==> ChangeChecker(v, c1) == ChangeChecker(v, c2)
  {
  }

  /** Free-text columns take any text or an emptied cell, and refuse numbers. */
  lemma StringFieldsAcceptTextOrEmpty(v: Value, column: string)
    requires Lower(column) in StringFields
    ensures ChangeChecker(v, column) == if v.Num? then Reject(StringMessage) else Accept
  {
    assert Lower(column) !in BoolColumns && Lower(column) != "modality";
  }

  /**
   * An accepted file name starts with `sub-` and a letter or digit and has a NIfTI
   * extension.
   */
  lemma AcceptedFilenameShape(v: Value)
    requires ChangeChecker(v, "Filename").Accept?
    ensures |Show(v)| > 4 && Show(v)[..4] == "sub-" && IsAlnum(Show(v)[4])
    ensures HasNiftiExtension(Show(v))
  {
    assert Lower("Filename") == "filename";
    BidsFilenameShape(Show(v));
  }

  /** Any anatomical name `sub-<label>[_ses-<label>]_<label>.nii[.gz]` is accepted as a file name. */
  lemma FilenameChangeAccepted(sub: string, ses: string, suffix: string, ext: string)
    requires IsLabel(sub) && (ses == [] || IsLabel(ses)) && IsLabel(suffix)
    requires ext == ".nii" || ext == ".nii.gz"
    ensures ChangeChecker(Str("sub-" + sub + (if ses == [] then "" else "_ses-" + ses) + ("_" + suffix + ext)), "Filename") == Accept
  {
    assert Lower("Filename") == "filename";
    AnatNameAccepted(sub, ses, suffix, ext);
  }

  /** One line of the provenance log. */
  datatype ChangeRecord = ChangeRecord(original: Value, modified: Value, row: nat, column: string)

  /**
   * `get_unequal_cells`: the differing coordinates, and the provenance log with one
   * record per coordinate, in the same order, naming the original and the new value.
   */
  method GetUnequalCells(a: Table, b: Table) returns (r: Result<seq<Coord>>, log: seq<ChangeRecord>)
    requires Wf(a) && Wf(b)
    ensures r == UnequalCells(a, b)
    ensures r.Err? ==> log == []
    ensures r.Ok? ==> |log| == |r.value|
    ensures r.Ok? ==> forall k :: 0 <= k < |log| ==>
      var c := r.value[k];
      log[k] == ChangeRecord(a.rows[c.row][c.col], b.rows[c.row][c.col], c.row, a.header[c.col])
    ensures r.Ok? ==> forall k :: 0 <= k < |log| ==> FillNa(log[k].original) != FillNa(log[k].modified)
  {
    r := UnequalCells(a, b);
    log := [];
    if r.Err? {
      return;
    }
    var coords := r.value;
    var k := 0;
    while k < |coords|
      invariant 0 <= k <= |coords| && |log| == k
      invariant forall i :: 0 <= i < k ==>
        log[i] == ChangeRecord(a.rows[coords[i].row][coords[i].col], b.rows[coords[i].row][coords[i].col],
                               coords[i].row, a.header[coords[i].col])
    {
      var c := coords[k];
      log := log + [ChangeRecord(a.rows[c.row][c.col], b.rows[c.row][c.col], c.row, a.header[c.col])];
      k := k + 1;
    }
    assert forall i :: 0 <= i < |coords| ==> Differs(a, b, coords[i]);
  }

  /** One change sent to Flywheel: the acquisition, the BIDS field and its new value. */
  datatype Upload = Upload(acquisition: Value, field: string, value: Value)

  /**
   * What `upload_to_flywheel` sends, one change per changed cell: the acquisition id
   * of the cell's row, the column name and the edited value.
   */
  function Uploads(t: Table, coords: seq<Coord>): (us: seq<Upload>)
    requires Wf(t) && AllInBounds(t, coords)
    ensures |us| == |coords|
    ensures forall k :: 0 <= k < |coords| ==>
      us[k].field == t.header[coords[k].col] && us[k].value == t.rows[coords[k].row][coords[k].col] &&
      us[k].acquisition == CellAt(t, coords[k].row, "acquisition.id")
  {
    seq(|coords|, k requires 0 <= k < |coords| =>
      Upload(CellAt(t, coords[k].row, "acquisition.id"), t.header[coords[k].col], t.rows[coords[k].row][coords[k].col]))
  }

  /** How a run of the script ends. */
  datatype RunOutcome =
    | Aborted(message: string)     // an exception stopped the script
    | Exiting                      // some change was refused; nothing is uploaded
    | Uploaded(changes: seq<Upload>)

  /** The script's run on the original and the edited table, with the queue as the run finds it. */
  method Run(q: ErrorQueue, original: Table, edited: Table) returns (out: RunOutcome)
    requires Wf(original) && Wf(edited)
    modifies q
    ensures ReadFlywheelCsv(original).Err? ==> out == Aborted(FormatMessage)
    ensures ReadFlywheelCsv(original).Ok? && ReadFlywheelCsv(edited).Err? ==> out == Aborted(FormatMessage)
    ensures out.Uploaded? ==>
      ReadFlywheelCsv(original).Ok? && ReadFlywheelCsv(edited).Ok? && UnequalCells(original, edited).Ok? &&
      var coords := UnequalCells(original, edited).value;
      old(q.messages) == [] &&
      (forall k :: 0 <= k < |coords| ==> ChangeChecker(edited.rows[coords[k].row][coords[k].col], edited.header[coords[k].col]) == Accept) &&
      out.changes == Uploads(edited, coords)
    ensures old(q.messages) == [] && ReadFlywheelCsv(original).Ok? && ReadFlywheelCsv(edited).Ok? &&
      UnequalCells(original, edited).Ok? &&
      (var coords := UnequalCells(original, edited).value;
       forall k :: 0 <= k < |coords| ==> ChangeChecker(edited.rows[coords[k].row][coords[k].col], edited.header[coords[k].col]) == Accept)
      ==> out.Uploaded?
    ensures ReadFlywheelCsv(original).Ok? && ReadFlywheelCsv(edited).Ok? && UnequalCells(original, edited).Err? ==>
      out == Aborted(UnequalCells(original, edited).error)
    ensures ReadFlywheelCsv(original).Ok? && ReadFlywheelCsv(edited).Ok? && UnequalCells(original, edited).Ok? &&
      (var coords := UnequalCells(original, edited).value;
       exists k :: 0 <= k < |coords| && ChangeChecker(edited.rows[coords[k].row][coords[k].col], edited.header[coords[k].col]).Raise?)
      ==> (out.Aborted? &&
           var coords := UnequalCells(original, edited).value;
           exists k :: 0 <= k < |coords| &&
             ChangeChecker(edited.rows[coords[k].row][coords[k].col], edited.header[coords[k].col]) == Raise(out.message) &&
             forall i :: 0 <= i < k ==> !ChangeChecker(edited.rows[coords[i].row][coords[i].col], edited.header[coords[i].col]).Raise?)
    ensures (ReadFlywheelCsv(original).Ok? && ReadFlywheelCsv(edited).Ok? && UnequalCells(original, edited).Ok? &&
             NoneRaise(ChangeChecker, edited, UnequalCells(original, edited).value) &&
             !(old(q.messages) == [] && AllAccepted(ChangeChecker, edited, UnequalCells(original, edited).value))) ==>
      out == Exiting
  {
    var a := ReadFlywheelCsv(original);
    if a.Err? {
      return Aborted(a.error);
    }
    var b := ReadFlywheelCsv(edited);
    if b.Err? {
      return Aborted(b.error);
    }
    var unequal, log := GetUnequalCells(original, edited);
    if unequal.Err? {
      return Aborted(unequal.error);
    }
    var coords := unequal.value;
    ghost var pending := q.messages;
    ghost var vs := Verdicts(ChangeChecker, edited, coords);
    assert forall k :: 0 <= k < |coords| ==>
      vs[k] == ChangeChecker(edited.rows[coords[k].row][coords[k].col], edited.header[coords[k].col]);
    var res := ValidateOnUnequalCells(q, ChangeChecker, coords, edited);
    UploadGateIff(pending, vs, coords, edited);
    AggregateRaises(pending, vs, coords, edited);
    if res.Raised? {
      return Aborted(res.message);
    }
    if q.messages == [] && res.valid {
      return Uploaded(Uploads(edited, coords));
    }
    return Exiting;
  }
}
