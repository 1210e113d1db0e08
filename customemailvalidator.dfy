/** `EmailValidator` of the single-email composer
    (src/services/customEmailService/emailValidator.ts, repeated verbatim at the end of
    src/services/customEmailService/trackingGenerator.ts): the address check, shared with the
    bulk validator, and the form check that lists what is wrong with a recipient and a body. */
module CustomEmailValidator {
  import opened JsText
  import MailValidator

  const RecipientRequired: string := "Recipient email is required"
  const InvalidAddress: string := "Please enter a valid email address"
  const BodyRequired: string := "Email body is required"
  const BodyTooShort: string := "Email body must be at least 10 characters"

  /** What `validateEmailForm` returns. */
  datatype FormResult = FormResult(isValid: bool, errors: seq<string>)

  /** The recipient's error, if any: required when blank, otherwise invalid when the untrimmed
      text fails the address check. There is none exactly when the address is valid. */
  function RecipientError(recipient: string): (e: seq<string>)
    ensures |e| <= 1
    ensures e == [] <==> MailValidator.IsValidEmail(recipient)
    ensures e != [] ==> e[0] == RecipientRequired || e[0] == InvalidAddress
  {
    ValidIsNotBlank(recipient);
    if IsBlank(recipient) then [RecipientRequired]
    else if !MailValidator.IsValidEmail(recipient) then [InvalidAddress]
    else []
  }

  /** The body's error, if any: required when blank, too short when the trimmed text has
      fewer than 10 UTF-16 code units. There is none exactly when it has 10 or more. */
  function BodyError(body: string): (e: seq<string>)
    ensures |e| <= 1
    ensures e == [] <==> Utf16Length(Trim(body)) >= 10
    ensures e != [] ==> e[0] == BodyRequired || e[0] == BodyTooShort
  {
    if IsBlank(body) then [BodyRequired]
    else if Utf16Length(Trim(body)) < 10 then [BodyTooShort]
    else []
  }

  /** `validateEmailForm(recipientEmail, emailBody)`: the recipient's error, if any, then
      the body's; the form is valid exactly when there is neither. */
  method ValidateEmailForm(recipientEmail: string, emailBody: string) returns (r: FormResult)
    ensures r.errors == RecipientError(recipientEmail) + BodyError(emailBody)
    ensures r.isValid <==> r.errors == []
    ensures r.isValid <==> MailValidator.IsValidEmail(recipientEmail) && Utf16Length(Trim(emailBody)) >= 10
    ensures |r.errors| <= 2
  {
    ghost var recipientError, bodyError := RecipientError(recipientEmail), BodyError(emailBody);
    var errors: seq<string> := [];
    if IsBlank(recipientEmail) {
      errors := errors + [RecipientRequired];
    } else if !MailValidator.IsValidEmail(recipientEmail) {
      errors := errors + [InvalidAddress];
    }
    if IsBlank(emailBody) {
      errors := errors + [BodyRequired];
    } else if Utf16Length(Trim(emailBody)) < 10 {
      errors := errors + [BodyTooShort];
    }
    assert errors == recipientError + bodyError;
    return FormResult(|errors| == 0, errors);
  }

  /** A valid address is never blank. */
  lemma ValidIsNotBlank(email: string)
    ensures MailValidator.IsValidEmail(email) ==> !IsBlank(email)
  {
    if MailValidator.IsValidEmail(email) {
      MailValidator.ValidIsTrimmed(email);
      MailValidator.IsValidEmailIff(email);
    }
  }

  /** The four messages are distinct, so an error list says which check failed. */
  lemma MessagesDistinct()
    ensures RecipientRequired != InvalidAddress && BodyRequired != BodyTooShort
    ensures RecipientRequired !in [BodyRequired, BodyTooShort] && InvalidAddress !in [BodyRequired, BodyTooShort]
  {
    assert RecipientRequired[0] == 'R' && InvalidAddress[0] == 'P';
    assert BodyRequired[0] == 'E' && BodyTooShort[0] == 'E';
    assert BodyRequired[11] == 'i' && BodyTooShort[11] == 'm';
  }

  /** The errors in words: a blank recipient gives only the required message, a non-blank
      invalid one the invalid-address message, and that error, when present, is first; a
      blank body gives the required message, a trimmed body of 1 to 9 code units the
      too-short one, and that error, when present, is last. */
  lemma FormErrorCases(recipient: string, body: string)
    ensures var errors := RecipientError(recipient) + BodyError(body);
      && (IsBlank(recipient) ==> errors[0] == RecipientRequired && InvalidAddress !in errors)
      && (!IsBlank(recipient) && !MailValidator.IsValidEmail(recipient) ==> errors[0] == InvalidAddress && RecipientRequired !in errors)
      && (MailValidator.IsValidEmail(recipient) ==> RecipientRequired !in errors && InvalidAddress !in errors)
      && (IsBlank(body) ==> errors[|errors| - 1] == BodyRequired && BodyTooShort !in errors)
      && (!IsBlank(body) && Utf16Length(Trim(body)) < 10 ==> errors[|errors| - 1] == BodyTooShort && BodyRequired !in errors)
      && (Utf16Length(Trim(body)) >= 10 ==> BodyRequired !in errors && BodyTooShort !in errors)
  {
    MessagesDistinct();
    var a, b := RecipientError(recipient), BodyError(body);
    var errors := a + b;
    forall m | m in errors
      ensures m in a || m in b
    {
    }
  }

  /** The address check sees the untrimmed recipient: a leading space makes a valid address
      fail, with the invalid-address message rather than the required one. */
  lemma UntrimmedRecipientRejected()
    ensures MailValidator.IsValidEmail("a@b.co")
    ensures RecipientError(" a@b.co") == [InvalidAddress]
  {
    var e := "a@b.co";
    assert MailValidator.IsValidEmail(e) by {
      assert e[1] == '@' && e[3] == '.';
      assert MailValidator.Plain(e, 0, 1) && MailValidator.Plain(e, 2, 3) && MailValidator.Plain(e, 4, 6);
    }
    var f := " a@b.co";
    assert !MailValidator.IsValidEmail(f) by {
      LeadingSpaceInvalid(f);
    }
    assert !IsBlank(f) by {
      assert !IsSpace(f[1]);
      BlankIffAllSpace(f);
    }
  }

  /** The pattern admits no whitespace, so an address with a leading space fails. */
  lemma LeadingSpaceInvalid(e: string)
    requires e != [] && IsSpace(e[0])
    ensures !MailValidator.IsValidEmail(e)
  {
    if MailValidator.IsValidEmail(e) {
      MailValidator.ValidIsShaped(e);
    }
  }
}
