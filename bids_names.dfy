/**
 * The BIDS (Brain Imaging Data Structure) naming patterns the field checkers accept:
 * `sub-<label>` followed by optional `_<key>-<label>` entities, as the "Common
 * principles" chapter of the BIDS specification lays out file names.
 */
module BidsNames {
  import opened Cells
  import opened Regex

  /** An optional `_<key>-<label>` entity; `tag` is the literal `_<key>-`. */
  function Entity(tag: string): Item {
    Opt([Lit(tag), AlnumRun])
  }

  /** `\.nii(\.gz)?$`, the end all three file name patterns share. */
  const NiftiEnd: seq<Item> := [Lit(".nii"), Opt([Lit(".gz")]), End]

  /** Anatomical name with an optional bare modality label before the extension. */
  const Anat1: seq<Item> :=
    [Lit("sub-"), AlnumRun, Entity("_ses-"), Entity("_acq-"), Entity("_ce-"), Entity("_rec-"), Entity("_run-"),
     Opt([Lit("_"), AlnumRun])] + NiftiEnd

  /** Anatomical name with an optional `_mod-` entity and a mandatory suffix label. */
  const Anat2: seq<Item> :=
    [Lit("sub-"), AlnumRun, Entity("_ses-"), Entity("_acq-"), Entity("_ce-"), Entity("_rec-"), Entity("_run-"),
     Entity("_mod-"), Lit("_"), AlnumRun] + NiftiEnd

  /** Functional name with task, direction and echo entities. */
  const Func1: seq<Item> :=
    [Lit("sub-"), AlnumRun, Entity("_ses-"), Entity("_task-"), Entity("_acq-"), Entity("_ce-"), Entity("_dir-"),
     Entity("_rec-"), Entity("_run-"), Entity("_echo-"), Opt([Lit("_"), AlnumRun])] + NiftiEnd

  /** The session-label pattern; it has no `$`, so only a prefix of the label has to fit. */
  const SessionPattern: seq<Item> :=
    [Lit("sub-"), AlnumRun, Entity("_ses-"), Entity("_task-"), Entity("_acq-"), Entity("_rec-"), Entity("_run-")]

  /** A file name one of the three patterns accepts. */
  predicate IsBidsFilename(s: string) {
    Match(Anat1, s) || Match(Anat2, s) || Match(Func1, s)
  }

  /** A session label the session pattern accepts once lower-cased. */
  predicate IsBidsSessionLabel(s: string) {
    Match(SessionPattern, Lower(s))
  }

  predicate EndsWith(s: string, t: string) {
    |t| <= |s| && s[|s| - |t|..] == t
  }

  /** `.nii` or `.nii.gz`, possibly followed by the one newline `$` tolerates. */
  predicate HasNiftiExtension(s: string) {
    EndsWith(s, ".nii") || EndsWith(s, ".nii.gz") || EndsWith(s, ".nii\n") || EndsWith(s, ".nii.gz\n")
  }

  lemma NiftiEndMatch(u: string)
    requires Match(NiftiEnd, u)
    ensures u == ".nii" || u == ".nii.gz" || u == ".nii\n" || u == ".nii.gz\n"
  {
    var v := u[4..];
    assert ".nii" <= u && u == ".nii" + v;
    var opt := NiftiEnd[1..];
    assert opt == [Opt([Lit(".gz")]), End];
    assert Match(opt, v);
    if Match([Lit(".gz"), End], v) {
      var w := v[3..];
      assert ".gz" <= v && v == ".gz" + w;
      assert [Lit(".gz"), End][1..] == [End];
      assert Match([End], w);
      assert w == [] || w == "\n";
    } else {
      assert [Lit(".gz")] + opt[1..] == [Lit(".gz"), End];
      assert Match([End], v);
      assert v == [] || v == "\n";
    }
  }

  lemma {:induction false} EndsInNifti(p: seq<Item>, s: string)
    requires Match(p + NiftiEnd, s)
    ensures HasNiftiExtension(s)
  {
    MatchAppend(p, NiftiEnd, s);
    var k :| 0 <= k <= |s| && Match(NiftiEnd, s[k..]);
    NiftiEndMatch(s[k..]);
    assert s == s[..k] + s[k..];
  }

  /**
   * Every accepted file name starts with `sub-` and a letter or digit, and ends with
   * `.nii` or `.nii.gz` (before at most one final newline).
   */
  lemma {:induction false} BidsFilenameShape(s: string)
    requires IsBidsFilename(s)
    ensures |s| > 4 && s[..4] == "sub-" && IsAlnum(s[4])
    ensures HasNiftiExtension(s)
  {
    if Match(Anat1, s) {
      assert Anat1 == Anat1[..8] + NiftiEnd;
      EndsInNifti(Anat1[..8], s);
      assert Anat1[0] == Lit("sub-") && Anat1[1] == AlnumRun;
      assert Match(Anat1[1..], s[4..]);
    } else if Match(Anat2, s) {
      assert Anat2 == Anat2[..10] + NiftiEnd;
      EndsInNifti(Anat2[..10], s);
      assert Anat2[0] == Lit("sub-") && Anat2[1] == AlnumRun;
      assert Match(Anat2[1..], s[4..]);
    } else {
      assert Func1 == Func1[..11] + NiftiEnd;
      EndsInNifti(Func1[..11], s);
      assert Func1[0] == Lit("sub-") && Func1[1] == AlnumRun;
      assert Match(Func1[1..], s[4..]);
    }
  }

  /** A non-empty run of letters and digits: what `[a-zA-Z0-9]+` can consume in full. */
  predicate IsLabel(w: string) {
    w != [] && forall i :: 0 <= i < |w| ==> IsAlnum(w[i])
  }

  /** `[a-zA-Z0-9]+` consumes any label and lets the rest of the pattern carry on after it. */
  lemma {:induction false} RunMatches(w: string, rest: seq<Item>, u: string)
    requires IsLabel(w) && Match(rest, u)
    ensures Match([AlnumRun] + rest, w + u)
    decreases |w|
  {
    if |w| == 1 {
      RunStart(w[0], rest, u);
      assert w + u == [w[0]] + u;
    } else {
      RunMatches(w[1..], rest, u);
      RunMore(w[0], rest, w[1..] + u);
      assert w + u == [w[0]] + (w[1..] + u);
    }
  }

  /** An optional `_<key>-<label>` entity consumes its tag followed by any label. */
  lemma EntityTake(tag: string, w: string, rest: seq<Item>, u: string)
    requires IsLabel(w) && Match(rest, u)
    ensures Match([Entity(tag)] + rest, tag + w + u)
  {
    RunMatches(w, rest, u);
    LitStep(tag, [AlnumRun] + rest, w + u);
    assert [Lit(tag), AlnumRun] + rest == [Lit(tag)] + ([AlnumRun] + rest);
    OptTake([Lit(tag), AlnumRun], rest, tag + (w + u));
    assert tag + w + u == tag + (w + u);
  }

  /** The shared tail accepts both NIfTI extensions (the converse of `NiftiEndMatch`). */
  lemma NiftiEndAccepts(ext: string)
    requires ext == ".nii" || ext == ".nii.gz"
    ensures Match(NiftiEnd, ext)
  {
    assert Match([End], "");
    assert [Opt([Lit(".gz")])] + [End] == NiftiEnd[1..];
    assert [Lit(".nii")] + NiftiEnd[1..] == NiftiEnd;
    if ext == ".nii" {
      OptSkip([Lit(".gz")], [End], "");
      LitStep(".nii", NiftiEnd[1..], "");
      assert ".nii" + "" == ext;
    } else {
      LitStep(".gz", [End], "");
      assert [Lit(".gz")] + [End] == [Lit(".gz"), End];
      OptTake([Lit(".gz")], [End], ".gz");
      LitStep(".nii", NiftiEnd[1..], ".gz");
    }
  }

  /** Entities left out of a name are skipped. */
  lemma SkipEntities(rest: seq<Item>, u: string)
    requires Match(rest, u)
    ensures Match([Entity("_acq-"), Entity("_ce-"), Entity("_rec-"), Entity("_run-")] + rest, u)
  {
    var r1 := [Entity("_run-")] + rest;
    var r2 := [Entity("_rec-")] + r1;
    var r3 := [Entity("_ce-")] + r2;
    OptSkip([Lit("_run-"), AlnumRun], rest, u);
    OptSkip([Lit("_rec-"), AlnumRun], r1, u);
    OptSkip([Lit("_ce-"), AlnumRun], r2, u);
    OptSkip([Lit("_acq-"), AlnumRun], r3, u);
    assert [Entity("_acq-")] + r3 == [Entity("_acq-"), Entity("_ce-"), Entity("_rec-"), Entity("_run-")] + rest;
  }

  /** What follows the session entity in `Anat1` accepts `_<label>` and a NIfTI extension. */
  lemma AnatTailAccepted(suffix: string, ext: string)
    requires IsLabel(suffix) && (ext == ".nii" || ext == ".nii.gz")
    ensures Match(Anat1[3..], "_" + suffix + ext)
  {
    NiftiEndAccepts(ext);
    EntityTake("_", suffix, NiftiEnd, ext);
    SkipEntities([Entity("_")] + NiftiEnd, "_" + suffix + ext);
    assert Anat1[3..] == [Entity("_acq-"), Entity("_ce-"), Entity("_rec-"), Entity("_run-")] + ([Entity("_")] + NiftiEnd);
  }

  /** What follows the subject in `Anat1` accepts an optional session entity and the tail. */
  lemma AnatAfterSubject(ses: string, tail: string)
    requires (ses == [] || IsLabel(ses)) && Match(Anat1[3..], tail)
    ensures Match(Anat1[2..], (if ses == [] then "" else "_ses-" + ses) + tail)
  {
    assert [Entity("_ses-")] + Anat1[3..] == Anat1[2..];
    if ses == [] {
      OptSkip([Lit("_ses-"), AlnumRun], Anat1[3..], tail);
      assert "" + tail == tail;
    } else {
      EntityTake("_ses-", ses, Anat1[3..], tail);
    }
  }

  /**
   * Every name `sub-<label>[_ses-<label>]_<label>.nii[.gz]` is a BIDS file name: the
   * first anatomical pattern accepts it. An empty `ses` leaves the session out.
   */
  lemma AnatNameAccepted(sub: string, ses: string, suffix: string, ext: string)
    requires IsLabel(sub) && (ses == [] || IsLabel(ses)) && IsLabel(suffix)
    requires ext == ".nii" || ext == ".nii.gz"
    ensures IsBidsFilename("sub-" + sub + (if ses == [] then "" else "_ses-" + ses) + ("_" + suffix + ext))
  {
    var tail := "_" + suffix + ext;
    var afterSub := (if ses == [] then "" else "_ses-" + ses) + tail;
    AnatTailAccepted(suffix, ext);
    AnatAfterSubject(ses, tail);
    RunMatches(sub, Anat1[2..], afterSub);
    LitStep("sub-", [AlnumRun] + Anat1[2..], sub + afterSub);
    assert [Lit("sub-")] + ([AlnumRun] + Anat1[2..]) == Anat1;
    assert "sub-" + (sub + afterSub) == "sub-" + sub + (if ses == [] then "" else "_ses-" + ses) + tail;
  }

  /**
   * The session-label pattern accepts exactly the labels whose lower-cased form starts
   * with `sub-` and one letter or digit: whatever follows is never looked at.
   */
  lemma SessionLabelAccepted(s: string)
    ensures IsBidsSessionLabel(s) <==> |s| > 4 && Lower(s)[..4] == "sub-" && IsAlnum(Lower(s)[4])
  {
    var l := Lower(s);
    var opts := SessionPattern[2..];
    assert SessionPattern == [Lit("sub-")] + ([AlnumRun] + opts);
    if |s| > 4 && l[..4] == "sub-" && IsAlnum(l[4]) {
      AllOptionalMatches(opts, l[5..]);
      RunStart(l[4], opts, l[5..]);
      assert l[4..] == [l[4]] + l[5..];
      LitStep("sub-", [AlnumRun] + opts, l[4..]);
      assert l == "sub-" + l[4..];
    }
    if Match(SessionPattern, l) {
      assert "sub-" <= l;
      assert SessionPattern[1..] == [AlnumRun] + opts;
      assert Match([AlnumRun] + opts, l[4..]);
    }
  }

  /** A label with upper-case letters and trailing text is still accepted. */
  lemma ExampleSessionLabelAccepted()
    ensures IsBidsSessionLabel("SUB-01 whatever")
  {
    SessionLabelAccepted("SUB-01 whatever");
    assert Lower("SUB-01 whatever")[..5] == "sub-0";
  }
}
