/**
 * The pieces both change checkers share: the fixed rejection reasons, the boolean
 * drop-down and the modality drop-down.
 */
module ChangeRules {
  import opened Cells
  import opened Aggregation

  const BoolMessage: string := "This field accepts booleans, these can only be written as \"True\" or \"False\"!"
  const DropDownMessage: string := "This field must match one of the available options in the drop-down menu on the website!"
  const StringMessage: string := "This field only accepts strings!"
  const BidsMessage: string := "This field MUST be a BIDS compliant name!"
  const IdMessage: string := "You cannot edit the acquisition ID!"

  /** Every reason a change checker can reject a change with. */
  const Catalogue: seq<string> := [BoolMessage, DropDownMessage, StringMessage, BidsMessage, IdMessage]

  /** The message of the exception raised for a column neither checker knows. */
  function NotRecognised(column: string): string {
    "Column " + column + " not recognised!"
  }

  /** The keys of `drop_down_bool`. */
  const BoolColumns: seq<string> := ["ignore", "valid"]

  /** The options of the `modality` drop-down. */
  const ModalityOptions: seq<string> := ["", "mr", "ct", "pet", "us", "eeg", "ieeg", "x-ray", "ecg", "meg", "nirs"]

  /** A boolean drop-down accepts exactly the cells whose text reads `true` or `false` in any case. */
  function BoolVerdict(v: Value): (r: Verdict)
    ensures r == Accept || r == Reject(BoolMessage)
    ensures r.Accept? <==> Lower(Show(v)) in ["true", "false"]
  {
    var s := Lower(Show(v));
    if s == "true" || s == "false" then Accept else Reject(BoolMessage)
  }

  /** The modality drop-down accepts exactly the listed options, in any case. */
  function ModalityVerdict(v: Value): (r: Verdict)
    ensures r == Accept || r == Reject(DropDownMessage)
    ensures r.Accept? <==> Lower(Show(v)) in ModalityOptions
  {
    if Lower(Show(v)) in ModalityOptions then Accept else Reject(DropDownMessage)
  }

  /** Both drop-downs ignore the case of what was typed. */
  lemma DropDownsIgnoreCase(v: Value, w: Value)
    requires Lower(Show(v)) == Lower(Show(w))
    ensures BoolVerdict(v) == BoolVerdict(w) && ModalityVerdict(v) == ModalityVerdict(w)
  {
  }

  /** A missing cell reads `nan`, which neither drop-down accepts. */
  lemma DropDownsRejectMissing()
    ensures BoolVerdict(Missing) == Reject(BoolMessage)
    ensures ModalityVerdict(Missing) == Reject(DropDownMessage)
  {
    assert Lower("nan") == "nan";
  }

  lemma ExampleBoolAccepted()
    ensures BoolVerdict(Str("TRUE")) == Accept
    ensures BoolVerdict(Str("False")) == Accept
    ensures BoolVerdict(Str("yes")) == Reject(BoolMessage)
  {
    assert Lower("TRUE") == "true";
    assert Lower("False") == "false";
    assert Lower("yes") == "yes";
  }
}
