/** `SubscriberEmail` (src/domain/subscriber_email.rs): a string that has
    passed the email validator. The validator is the `validator` crate's
    `validate_email`, which this model does not open; callers supply it as a
    total predicate. */
module Emails {
  import opened Wrappers

  /** The newtype; values are only built by `Parse`. */
  datatype SubscriberEmail = SubscriberEmail(address: string)

  type Validator = string -> bool

  /** The rejections the repository's own unit tests demand of the
      validator: the empty string, an address without '@', and an address
      with an empty local part. */
  predicate RejectsTestedInputs(validate: Validator) {
    !validate("") && !validate("kkgmail.com") && !validate("@gmail.com")
  }

  /** `AsRef<str>`: the wrapped text. */
  function AsRef(e: SubscriberEmail): string {
    e.address
  }

  /** `SubscriberEmail::parse`: accepted exactly when the validator accepts,
      the accepted value views as the input unchanged, and a rejection says
      which input was refused. */
  function Parse(validate: Validator, s: string): (r: Result<SubscriberEmail, string>)
    ensures r.Success? <==> validate(s)
    ensures r.Success? ==> AsRef(r.value) == s
    ensures r.Failure? ==> r.error == s + " is not a valid subscriber email."
  {
    if validate(s) then Success(SubscriberEmail(s))
    else Failure(s + " is not a valid subscriber email.")
  }

  /** The other round trip: re-parsing the text of a valid email gives the
      same value back. */
  lemma ParseAsRef(validate: Validator, e: SubscriberEmail)
    requires validate(AsRef(e))
    ensures Parse(validate, AsRef(e)) == Success(e)
  {
  }

  /** Under the validator facts the repository's tests rely on, the three inputs they use are refused. */
  lemma TestedInputsRejected(validate: Validator)
    requires RejectsTestedInputs(validate)
    ensures Parse(validate, "").Failure?
    ensures Parse(validate, "kkgmail.com").Failure?
    ensures Parse(validate, "@gmail.com").Failure?
  {
  }
}
