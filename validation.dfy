/** Content validators: called with the filename, the submitted content and the
    editable directory before a save, a validator either returns or throws; a
    thrown error may carry a `validationErrorMessage` to show the editor. */
module Validation {
  import opened Wrappers
  import opened Strings

  /** How a validator call ends: it returns, or it throws an error whose
      `validationErrorMessage` is present or absent. */
  datatype Verdict = Pass | Throws(validationErrorMessage: Option<string>)

  /** (filename, content, editableDir) to verdict. */
  type Validator = (string, string, string) -> Verdict

  const InvalidPrefix: string := "Invalid"

  const InvalidMessage: string := "The content is invalid because it starts with the text 'Invalid'."

  /** The example validator: content starting with "Invalid" is refused with a
      fixed message; everything else passes. */
  function ExampleValidator(filename: string, content: string, editableDir: string): (v: Verdict)
    ensures v == Pass <==> !StartsWith(content, InvalidPrefix)
    ensures v != Pass ==> v == Throws(Some(InvalidMessage))
  {
    if StartsWith(content, InvalidPrefix) then Throws(Some(InvalidMessage)) else Pass
  }

  const Example: Validator := ExampleValidator

  /** No validator configured: calling `undefined` throws a TypeError, which carries
      no `validationErrorMessage`. */
  const Missing: Validator := (filename: string, content: string, editableDir: string) => Throws(None)

  /** The example validator decides on the content alone. */
  lemma ExampleIgnoresFilenameAndDir(f1: string, d1: string, f2: string, d2: string, content: string)
    ensures ExampleValidator(f1, content, d1) == ExampleValidator(f2, content, d2)
  {
  }

  /** Empty content, and content that merely contains "Invalid" later on, pass. */
  lemma ExampleAccepts(filename: string, editableDir: string)
    ensures ExampleValidator(filename, "", editableDir) == Pass
    ensures ExampleValidator(filename, "Not Invalid", editableDir) == Pass
    ensures ExampleValidator(filename, "invalid", editableDir) == Pass
  {
    assert "Not Invalid"[..7] != InvalidPrefix by { assert "Not Invalid"[0] == 'N'; }
    assert "invalid"[..7] != InvalidPrefix by { assert "invalid"[0] == 'i'; }
  }

  /** Anything appended to "Invalid" is refused with the fixed message. */
  lemma ExampleRejectsPrefixed(filename: string, rest: string, editableDir: string)
    ensures ExampleValidator(filename, InvalidPrefix + rest, editableDir) == Throws(Some(InvalidMessage))
  {
    StartsWithAppend(InvalidPrefix, rest);
  }

  /** The missing validator refuses everything. */
  lemma MissingRejectsAll(filename: string, content: string, editableDir: string)
    ensures Missing(filename, content, editableDir).Throws?
  {
  }
}
