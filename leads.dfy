/** The validation branch of the lead form handler. */
module Leads {
  import opened Wrappers
  import opened Text

  /** A row of the `leads` table. */
  datatype Lead = Lead(id: int, name: string, email: string, phone: string, message: string, createdAt: string)

  /** The four form fields after stripping. */
  datatype LeadForm = LeadForm(name: string, email: string, phone: string, message: string)

  /** The one validation error: neither an e-mail address nor a phone number. */
  datatype LeadError = MissingContact

  /**
   * A submission is rejected exactly when both the e-mail address and the
   * phone number are blank; otherwise it is accepted with every field stripped.
   */
  function ValidateLead(name: string, email: string, phone: string, message: string): (r: Result<LeadForm, LeadError>)
    ensures r.Failure? <==> Strip(email) == [] && Strip(phone) == []
    ensures r.Success? ==> r.value.email == Strip(email) && r.value.phone == Strip(phone)
    ensures r.Success? ==> r.value.name == Strip(name) && r.value.message == Strip(message)
  {
    var form := LeadForm(Strip(name), Strip(email), Strip(phone), Strip(message));
    if form.email == [] && form.phone == [] then Failure(MissingContact) else Success(form)
  }

  /** A phone number alone is enough. */
  lemma PhoneAloneAccepted(name: string, phone: string, message: string)
    requires Strip(phone) != []
    ensures ValidateLead(name, "", phone, message).Success?
  {
  }
}
