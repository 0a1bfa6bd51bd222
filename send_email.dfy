/**
 * The send-email page: which way of collecting recipients is selected, the
 * recipient list, the message text, and the request body sent with them.
 * `manualField` is the uncontrolled text input of the inline manual form,
 * whose value the page reads and resets on Enter.
 */
module SendEmail {
  import opened Options
  import opened Recipients

  /** The body of the send request: `{ recipients, content }`. */
  datatype Payload = Payload(recipients: seq<Recipient>, content: string)

  const ManualOption: string := "manual"
  const CsvOption: string := "csv"

  class SendEmailPage {
    /** `null` until a way of adding recipients is picked. */
    var selectedOption: Option<string>
    var recipients: seq<Recipient>
    var emailContent: string
    var manualField: string

    constructor ()
      ensures selectedOption == None && recipients == [] && emailContent == "" && manualField == ""
    {
      selectedOption, recipients, emailContent, manualField := None, [], "", "";
    }

    /** The manual form is on screen; the upload form then is not. */
    predicate ManualFormShown()
      reads this
      ensures ManualFormShown() ==> !CsvFormShown()
    {
      selectedOption == Some(ManualOption)
    }

    /** The upload form is on screen. */
    predicate CsvFormShown()
      reads this
    {
      selectedOption == Some(CsvOption)
    }

    /** The "Send Emails" button is on screen. */
    predicate SendButtonShown()
      reads this
    {
      |recipients| > 0 && emailContent != ""
    }

    /** `handleOptionSelect`: picks a way of adding recipients and keeps the rest. */
    method HandleOptionSelect(optionId: string)
      modifies this`selectedOption
      ensures selectedOption == Some(optionId)
      ensures ManualFormShown() <==> optionId == ManualOption
      ensures CsvFormShown() <==> optionId == CsvOption
    {
      selectedOption := Some(optionId);
    }

    /** `handleManualAdd`: appends the address as typed, without any check. */
    method HandleManualAdd(email: string)
      modifies this`recipients
      ensures recipients == old(recipients) + [Recipient(email)]
      ensures SendButtonShown() <==> emailContent != ""
    {
      recipients := recipients + [Recipient(email)];
    }

    /** The upload's completion callback: the parsed rows replace the list wholesale. */
    method HandleCsvComplete(rows: seq<Recipient>)
      modifies this`recipients
      ensures recipients == rows
    {
      recipients := rows;
    }

    /** Typing into the inline manual field. */
    method TypeManual(value: string)
      modifies this`manualField
      ensures manualField == value
    {
      manualField := value;
    }

    /** The inline manual field's key handler: Enter adds the typed value and empties the field. */
    method HandleManualKeyDown(key: string)
      modifies this`recipients, this`manualField
      ensures key == "Enter" ==> recipients == old(recipients) + [Recipient(old(manualField))] && manualField == ""
      ensures key != "Enter" ==> recipients == old(recipients) && manualField == old(manualField)
    {
      if key == "Enter" {
        HandleManualAdd(manualField);
        manualField := "";
      }
    }

    /** The message editor's `onChange`. */
    method SetEmailContent(value: string)
      modifies this`emailContent
      ensures emailContent == value
      ensures SendButtonShown() <==> |recipients| > 0 && value != ""
    {
      emailContent := value;
    }

    /** The request body `handleSendEmails` posts: the list in its current order and the text. */
    method HandleSendEmails() returns (payload: Payload)
      ensures payload.recipients == recipients && payload.content == emailContent
      ensures SendButtonShown() ==> |payload.recipients| > 0 && payload.content != ""
    {
      payload := Payload(recipients, emailContent);
    }
  }

  /** At most one of the two forms is on screen. */
  lemma FormsExclusive(page: SendEmailPage)
    ensures !(page.ManualFormShown() && page.CsvFormShown())
  {
  }
}
