/** The contact form's submit handler, up to the point where it either shows an error
    toast or starts the simulated submission. A field the form lacks reads as "". */
module ContactForm {
  import opened Toasts
  import opened EmailRule
  import opened PhoneRule

  datatype Form = Form(name: string, email: string, phone: string, message: string)

  /** What the handler decides, one error class per check, in the order they run. */
  datatype Verdict = MissingField | InvalidEmail | InvalidPhone | Accepted

  /** The handler's checks: required fields, then a non-empty e-mail, then the phone. */
  function Validate(f: Form): (v: Verdict)
    ensures v == MissingField <==> f.name == "" || f.phone == "" || f.message == ""
    ensures v == InvalidEmail <==>
      f.name != "" && f.phone != "" && f.message != "" && f.email != "" && !ValidateEmail(f.email)
    ensures v == InvalidPhone <==>
      f.name != "" && f.phone != "" && f.message != "" &&
      (f.email == "" || ValidateEmail(f.email)) && !ValidatePhone(f.phone)
    ensures v == Accepted <==>
      f.name != "" && f.message != "" &&
      (f.email == "" || ValidateEmail(f.email)) && ValidatePhone(f.phone)
  {
    if f.name == "" || f.phone == "" || f.message == "" then MissingField
    else if f.email != "" && !ValidateEmail(f.email) then InvalidEmail
    else if !ValidatePhone(f.phone) then InvalidPhone
    else Accepted
  }

  /** The toast each verdict leads to; on acceptance it is shown once the simulated
      two-second submission ends. */
  function Notice(v: Verdict): (t: Toast)
    ensures t.kind == Error <==> v != Accepted
    ensures t.kind == Success <==> v == Accepted
  {
    match v
    case MissingField => Toast("Please fill in all required fields", Error)
    case InvalidEmail => Toast("Please enter a valid email", Error)
    case InvalidPhone => Toast("Please enter a valid 10-digit phone number", Error)
    case Accepted => Toast("Message sent successfully! We will contact you soon.", Success)
  }

  /** Every verdict has its own message, so the user can tell which check failed. */
  lemma NoticesDistinct(v: Verdict, w: Verdict)
    requires v != w
    ensures Notice(v).message != Notice(w).message
  {
  }

  /** A missing required field wins over whatever the e-mail and phone contain. */
  lemma RequiredFieldsFirst(f: Form, email: string, phone: string)
    requires f.name == "" || f.message == ""
    ensures Validate(f.(email := email, phone := phone)) == MissingField
  {
  }

  /** The e-mail is checked before the phone: a bad e-mail hides a bad phone. */
  lemma EmailBeforePhone(f: Form)
    requires f.name != "" && f.phone != "" && f.message != ""
    requires f.email != "" && !ValidateEmail(f.email)
    ensures Validate(f) == InvalidEmail
    ensures Validate(f.(email := "")) == if ValidatePhone(f.phone) then Accepted else InvalidPhone
  {
  }

  /** An empty e-mail never causes a rejection, and blanking an e-mail the handler
      did not object to changes nothing. */
  lemma EmptyEmailNeverRejects(f: Form)
    ensures Validate(f.(email := "")) != InvalidEmail
    ensures Validate(f) != InvalidEmail ==> Validate(f.(email := "")) == Validate(f)
  {
  }

  /** The handler judges a phone number by its digits only, provided it has any. */
  lemma PhoneFormattingIgnored(f: Form)
    requires StripNonDigits(f.phone) != ""
    ensures Validate(f.(phone := StripNonDigits(f.phone))) == Validate(f)
  {
    PhoneReadsOnlyDigits(f.phone);
  }

  /** A phone of punctuation alone is not a missing field but an invalid phone. */
  lemma DigitlessPhoneIsInvalid(f: Form)
    requires f.name != "" && f.message != "" && (f.email == "" || ValidateEmail(f.email))
    requires f.phone != "" && StripNonDigits(f.phone) == ""
    ensures Validate(f) == InvalidPhone
  {
  }

  lemma SubmitExamples()
    ensures Validate(Form("Asha", "", "987-654-3210", "Call me")) == Accepted
    ensures Validate(Form("Asha", "a@b", "9876543210", "Call me")) == InvalidEmail
    ensures Validate(Form("Asha", "a@b.co", "1234567890", "Call me")) == InvalidPhone
    ensures Validate(Form("", "a@b", "123", "Call me")) == MissingField
  {
    PhoneAcceptsExamples();
    PhoneRejectsExamples();
    EmailExamples();
  }
}
