/** `subscribe` (src/routes/subscriptions.rs): one insert into
    `subscriptions`, answered 200 or 500. The fresh `Uuid::new_v4()`, the
    clock and the column default for `status` are parameters. */
module Subscriptions {
  import opened Wrappers
  import opened Store
  import Http

  datatype FormData = FormData(email: string, name: string)

  /** The response status and the store afterwards. */
  datatype Outcome = Outcome(status: int, db: Db)

  /** The row `NewSubscription` inserts: form fields verbatim, no status, so
      the store's default applies. */
  function NewRow(form: FormData, id: Uuid, now: int, defaultStatus: Option<string>): Subscription {
    Subscription(id, form.email, form.name, now, defaultStatus)
  }

  /** `subscribe`: the insert fails when the database call fails (including
      the blocking pool's own error) or when the id already exists, since
      `id` is the primary key; a failure leaves the store as it was. */
  function Subscribe(db: Db, form: FormData, newId: Uuid, now: int, defaultStatus: Option<string>, insertFails: bool): (o: Outcome)
    ensures o.status == Http.OK <==> !insertFails && !HasId(db.subscriptions, newId)
    ensures o.status != Http.OK ==> o.status == Http.INTERNAL_SERVER_ERROR && o.db == db
    ensures o.db.subscriptionTokens == db.subscriptionTokens && o.db.users == db.users
    ensures o.status == Http.OK ==> |o.db.subscriptions| == |db.subscriptions| + 1
    ensures o.status == Http.OK ==> o.db.subscriptions[..|db.subscriptions|] == db.subscriptions
  {
    if insertFails || HasId(db.subscriptions, newId) then Outcome(Http.INTERNAL_SERVER_ERROR, db)
    else Outcome(Http.OK, db.(subscriptions := db.subscriptions + [NewRow(form, newId, now, defaultStatus)]))
  }

  /** The one added row holds the form's email and name unchanged, the
      fresh id and the default status, and is the only row with that id. */
  lemma SubscribeAddsOneRow(db: Db, form: FormData, newId: Uuid, now: int, defaultStatus: Option<string>)
    requires !HasId(db.subscriptions, newId)
    ensures var o := Subscribe(db, form, newId, now, defaultStatus, false);
            var added := o.db.subscriptions[|db.subscriptions|];
            && o.status == Http.OK
            && added.email == form.email && added.name == form.name
            && added.id == newId && added.status == defaultStatus
            && forall i :: 0 <= i < |o.db.subscriptions| && o.db.subscriptions[i].id == newId ==> i == |db.subscriptions|
  {
  }

  /** The primary key stays a key. */
  lemma SubscribePreservesUniqueIds(db: Db, form: FormData, newId: Uuid, now: int, defaultStatus: Option<string>, insertFails: bool)
    requires UniqueIds(db.subscriptions)
    ensures UniqueIds(Subscribe(db, form, newId, now, defaultStatus, insertFails).db.subscriptions)
  {
  }

  /** No validation happens: an address the validator would refuse and an
      empty name are stored as given. */
  lemma SubscribeStoresUnvalidatedInput(db: Db, newId: Uuid, now: int)
    requires !HasId(db.subscriptions, newId)
    ensures var o := Subscribe(db, FormData("kkgmail.com", ""), newId, now, Some(PENDING_CONFIRMATION), false);
            o.status == Http.OK && o.db.subscriptions[|db.subscriptions|].email == "kkgmail.com"
  {
  }

  /** The repository's subscribe scenario: the row holds the decoded form
      fields and, with the store default, is pending confirmation. */
  lemma SubscribeScenario(db: Db, newId: Uuid, now: int)
    requires !HasId(db.subscriptions, newId)
    ensures var o := Subscribe(db, FormData("kashishh@gmail.com", "kk kashyap"), newId, now, Some(PENDING_CONFIRMATION), false);
            var added := o.db.subscriptions[|o.db.subscriptions| - 1];
            o.status == Http.OK && added.email == "kashishh@gmail.com" && added.name == "kk kashyap"
            && added.status == Some(PENDING_CONFIRMATION) && !IsConfirmed(added)
  {
  }
}
