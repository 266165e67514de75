/** The subscriber lifecycle across the three handlers: `subscribe` inserts
    a pending row, `confirm` marks it confirmed, and `publish_newsletter`
    then sends to it. The code that issues confirmation tokens is not part
    of this model, so the token row is taken as given. */
module Lifecycle {
  import opened Wrappers
  import opened Store
  import Http
  import Emails
  import Subscriptions
  import Confirmation
  import Newsletter

  /** A fresh subscription that does not start out confirmed adds nobody to
      the newsletter's recipients. */
  lemma SubscribeAddsNoRecipient(validate: Emails.Validator, db: Db, form: Subscriptions.FormData,
                                 newId: Uuid, now: int, defaultStatus: Option<string>, insertFails: bool)
    requires defaultStatus != Some(CONFIRMED)
    ensures var o := Subscriptions.Subscribe(db, form, newId, now, defaultStatus, insertFails);
            Newsletter.RecipientAddresses(validate, o.db.subscriptions) == Newsletter.RecipientAddresses(validate, db.subscriptions)
  {
    var o := Subscriptions.Subscribe(db, form, newId, now, defaultStatus, insertFails);
    if o.status == Http.OK {
      var row := Subscriptions.NewRow(form, newId, now, defaultStatus);
      assert o.db.subscriptions == db.subscriptions + [row];
      Newsletter.RecipientAddressesAppend(validate, db.subscriptions, [row]);
      assert Newsletter.RecipientAddresses(validate, [row]) == [];
    }
  }

  /** Confirming through a token makes the subscriber it names a recipient,
      provided the stored email is valid. */
  lemma ConfirmedSubscriberIsRecipient(validate: Emails.Validator, db: Db, token: string, i: nat, k: nat)
    requires i < |db.subscriptionTokens| && db.subscriptionTokens[i].subscriptionToken == token
    requires forall j :: 0 <= j < i ==> db.subscriptionTokens[j].subscriptionToken != token
    requires k < |db.subscriptions| && db.subscriptions[k].id == db.subscriptionTokens[i].subscriberId
    requires validate(db.subscriptions[k].email)
    ensures var o := Confirmation.Confirm(db, token, false, false);
            db.subscriptions[k].email in Newsletter.RecipientAddresses(validate, o.db.subscriptions)
  {
    var o := Confirmation.Confirm(db, token, false, false);
    Confirmation.ConfirmKnownToken(db, token, i);
    assert o.db.subscriptions[k] == db.subscriptions[k].(status := Some(CONFIRMED));
    Newsletter.InRecipientAddresses(validate, o.db.subscriptions, db.subscriptions[k].email);
  }

  /** Subscribe, then confirm with a token issued for the new id: the
      subscriber is not a recipient before the confirmation and is one
      after it, if the address is valid and no other row holds it. */
  lemma {:induction false} SubscribeThenConfirm(validate: Emails.Validator, db: Db, form: Subscriptions.FormData,
                                                newId: Uuid, now: int, token: string, i: nat)
    requires !HasId(db.subscriptions, newId)
    requires validate(form.email)
    requires forall r :: 0 <= r < |db.subscriptions| ==> db.subscriptions[r].email != form.email
    requires i < |db.subscriptionTokens| && db.subscriptionTokens[i].subscriptionToken == token
    requires forall j :: 0 <= j < i ==> db.subscriptionTokens[j].subscriptionToken != token
    requires db.subscriptionTokens[i].subscriberId == newId
    ensures var s := Subscriptions.Subscribe(db, form, newId, now, Some(PENDING_CONFIRMATION), false);
            var c := Confirmation.Confirm(s.db, token, false, false);
            && s.status == Http.OK && c.status == Http.OK
            && form.email !in Newsletter.RecipientAddresses(validate, s.db.subscriptions)
            && form.email in Newsletter.RecipientAddresses(validate, c.db.subscriptions)
  {
    var s := Subscriptions.Subscribe(db, form, newId, now, Some(PENDING_CONFIRMATION), false);
    var n := |db.subscriptions|;
    assert s.db.subscriptions[n] == Subscriptions.NewRow(form, newId, now, Some(PENDING_CONFIRMATION));
    Newsletter.InRecipientAddresses(validate, s.db.subscriptions, form.email);
    ConfirmedSubscriberIsRecipient(validate, s.db, token, i, n);
  }
}
