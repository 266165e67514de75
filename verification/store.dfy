/** The relational store the handlers read and write, as immutable values:
    one sequence of rows per table, in the order a scan returns them.
    Storage failures are not produced here; every operation that touches the
    store takes a `fails` flag saying whether that database call errs. */
module Store {
  import opened Wrappers

  /** A `uuid::Uuid`; only equality matters to the model. */
  type Uuid = nat

  /** A row of `subscriptions`. `status` is nullable; the column default is
      what a row gets when the insert leaves it out. */
  datatype Subscription = Subscription(id: Uuid, email: string, name: string, subscribedAt: int, status: Option<string>)

  /** A row of `subscription_tokens`. */
  datatype SubscriptionToken = SubscriptionToken(subscriptionToken: string, subscriberId: Uuid)

  /** A row of `users`; `passwordHash` is a PHC string. */
  datatype User = User(userId: Uuid, username: string, passwordHash: string)

  datatype Db = Db(subscriptions: seq<Subscription>, subscriptionTokens: seq<SubscriptionToken>, users: seq<User>)

  const CONFIRMED: string := "confirmed"

  /** The status the tests observe on a freshly inserted row. */
  const PENDING_CONFIRMATION: string := "pending_confirmation"

  /** An opaque diesel error. */
  datatype DbError = DbError

  /** Stands for the display text of a diesel error, which the model does not
      track. */
  const DB_ERROR_MESSAGE: string := "database error"

  /** `id` is the primary key of `subscriptions` (`find` looks it up). */
  predicate UniqueIds(rows: seq<Subscription>) {
    forall i, j :: 0 <= i < j < |rows| ==> rows[i].id != rows[j].id
  }

  predicate HasId(rows: seq<Subscription>, id: Uuid) {
    exists i :: 0 <= i < |rows| && rows[i].id == id
  }

  predicate IsConfirmed(row: Subscription) {
    row.status == Some(CONFIRMED)
  }
}
