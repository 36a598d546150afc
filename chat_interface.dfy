/**
 * The chat screen (components/ChatInterface.tsx): it owns the text field,
 * forwards a submitted answer only when it is not blank, and picks the
 * submit control from the "last question" flag it is given.
 */
module Chat {
  import opened Outcomes
  import opened Text

  /** The label the submit button carries on the last question. */
  const GenerateLabel: string := "결과 생성"

  /** What the submit button shows. */
  datatype SubmitControl = Label(text: string) | SendIcon

  /** The label on the last question, the paper-plane icon on every other. */
  function SubmitControlFor(isLastQuestion: bool): (c: SubmitControl)
    ensures c.Label? <==> isLastQuestion
    ensures c.Label? ==> c.text == GenerateLabel
  {
    if isLastQuestion then Label(GenerateLabel) else SendIcon
  }

  class ChatInterface {
    /** The text field's contents. */
    var input: string

    constructor ()
      ensures input == ""
    {
      input := "";
    }

    /** The field's change handler. */
    method SetInput(value: string)
      modifies this
      ensures input == value
    {
      input := value;
    }

    /**
     * handleSubmit: a blank field submits nothing and stays as it is;
     * otherwise the trimmed text is handed to the answer callback once (the
     * returned value) and the field is cleared.
     */
    method HandleSubmit() returns (submitted: Option<string>)
      modifies this
      ensures submitted.Some? <==> !IsBlank(old(input))
      ensures submitted.Some? ==> submitted.value == Trim(old(input)) && input == ""
      ensures submitted.Some? ==>
        && submitted.value != ""
        && !IsWhitespace(submitted.value[0])
        && !IsWhitespace(submitted.value[|submitted.value| - 1])
      ensures submitted.None? ==> input == old(input)
    {
      if Trim(input) != "" {
        submitted := Some(Trim(input));
        input := "";
      } else {
        submitted := None;
      }
    }
  }
}
