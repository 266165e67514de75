/** `confirm` (src/routes/subscriptions_confirm.rs): resolve a subscription
    token to a subscriber id and mark that subscriber confirmed. Tokens are
    only read, never removed, so a token can be used again. */
module Confirmation {
  import opened Wrappers
  import Seqs
  import opened Store
  import Http

  predicate HasToken(tokens: seq<SubscriptionToken>, token: string) {
    exists i :: 0 <= i < |tokens| && tokens[i].subscriptionToken == token
  }

  /** `get_subscriber_id_from_token`: the subscriber of the first token row
      with that token, `None` when there is none, an error when the query
      fails. */
  function GetSubscriberIdFromToken(tokens: seq<SubscriptionToken>, token: string, lookupFails: bool): (r: Result<Option<Uuid>, DbError>)
    ensures r.Failure? <==> lookupFails
    ensures r.Success? ==> (r.value.None? <==> !HasToken(tokens, token))
    ensures r.Success? && r.value.Some? ==>
              exists i :: 0 <= i < |tokens| && tokens[i].subscriptionToken == token
                          && r.value.value == tokens[i].subscriberId
                          && forall j :: 0 <= j < i ==> tokens[j].subscriptionToken != token
  {
    if lookupFails then Failure(DbError)
    else match Seqs.FirstIndex(tokens, (t: SubscriptionToken) => t.subscriptionToken == token)
      case None => Success(None)
      case Some(i) => Success(Some(tokens[i].subscriberId))
  }

  /** The rows after `UPDATE subscriptions SET status = 'confirmed' WHERE id = ..`. */
  function SetConfirmed(rows: seq<Subscription>, id: Uuid): (r: seq<Subscription>)
    ensures |r| == |rows|
    ensures forall i :: 0 <= i < |rows| ==>
              r[i] == if rows[i].id == id then rows[i].(status := Some(CONFIRMED)) else rows[i]
  {
    if |rows| == 0 then []
    else [if rows[0].id == id then rows[0].(status := Some(CONFIRMED)) else rows[0]]
         + SetConfirmed(rows[1..], id)
  }

  /** `confirm_subscriber`: the update, or an error that changes nothing. */
  function ConfirmSubscriber(rows: seq<Subscription>, id: Uuid, updateFails: bool): (r: Result<seq<Subscription>, DbError>)
    ensures r.Failure? <==> updateFails
    ensures r.Success? ==> |r.value| == |rows|
    ensures r.Success? ==> forall i :: 0 <= i < |rows| && rows[i].id == id ==> IsConfirmed(r.value[i])
    ensures r.Success? ==> forall i :: 0 <= i < |rows| && rows[i].id != id ==> r.value[i] == rows[i]
    ensures r.Success? ==> forall i :: 0 <= i < |rows| ==>
              r.value[i].(status := rows[i].status) == rows[i]
  {
    if updateFails then Failure(DbError) else Success(SetConfirmed(rows, id))
  }

  /** The response status and the store afterwards. */
  datatype Outcome = Outcome(status: int, db: Db)

  /** `confirm`: 500 when the lookup fails, 401 for an unknown token, 500
      when the update fails, 200 otherwise. */
  function Confirm(db: Db, token: string, lookupFails: bool, updateFails: bool): (o: Outcome)
    ensures o.status in {Http.OK, Http.UNAUTHORIZED, Http.INTERNAL_SERVER_ERROR}
    ensures o.db.subscriptionTokens == db.subscriptionTokens && o.db.users == db.users
    ensures o.status != Http.OK ==> o.db == db
    ensures o.status == Http.UNAUTHORIZED <==> !lookupFails && !HasToken(db.subscriptionTokens, token)
    ensures o.status == Http.OK <==> !lookupFails && !updateFails && HasToken(db.subscriptionTokens, token)
  {
    match GetSubscriberIdFromToken(db.subscriptionTokens, token, lookupFails)
    case Failure(_) => Outcome(Http.INTERNAL_SERVER_ERROR, db)
    case Success(None) => Outcome(Http.UNAUTHORIZED, db)
    case Success(Some(id)) =>
      match ConfirmSubscriber(db.subscriptions, id, updateFails)
      case Failure(_) => Outcome(Http.INTERNAL_SERVER_ERROR, db)
      case Success(rows) => Outcome(Http.OK, db.(subscriptions := rows))
  }

  /** A known token confirms exactly the subscriber its first row names and
      leaves every other subscriber as it was. */
  lemma ConfirmKnownToken(db: Db, token: string, i: nat)
    requires i < |db.subscriptionTokens| && db.subscriptionTokens[i].subscriptionToken == token
    requires forall j :: 0 <= j < i ==> db.subscriptionTokens[j].subscriptionToken != token
    ensures var o := Confirm(db, token, false, false);
            var id := db.subscriptionTokens[i].subscriberId;
            && o.status == Http.OK
            && |o.db.subscriptions| == |db.subscriptions|
            && (forall k :: 0 <= k < |db.subscriptions| && db.subscriptions[k].id == id ==>
                  o.db.subscriptions[k] == db.subscriptions[k].(status := Some(CONFIRMED)))
            && (forall k :: 0 <= k < |db.subscriptions| && db.subscriptions[k].id != id ==>
                  o.db.subscriptions[k] == db.subscriptions[k])
  {
    var r := GetSubscriberIdFromToken(db.subscriptionTokens, token, false);
    assert HasToken(db.subscriptionTokens, token);
    var k :| 0 <= k < |db.subscriptionTokens| && db.subscriptionTokens[k].subscriptionToken == token
             && r.value.value == db.subscriptionTokens[k].subscriberId
             && forall j :: 0 <= j < k ==> db.subscriptionTokens[j].subscriptionToken != token;
    assert k == i;
  }

  /** Confirmation only ever writes "confirmed": no subscriber goes back to
      pending, and an already confirmed one stays confirmed. */
  lemma ConfirmIsMonotone(db: Db, token: string, lookupFails: bool, updateFails: bool, k: nat)
    requires k < |db.subscriptions|
    ensures var o := Confirm(db, token, lookupFails, updateFails);
            |o.db.subscriptions| == |db.subscriptions|
            && (o.db.subscriptions[k] == db.subscriptions[k] || IsConfirmed(o.db.subscriptions[k]))
            && (IsConfirmed(db.subscriptions[k]) ==> IsConfirmed(o.db.subscriptions[k]))
  {
  }

  /** Idempotence: using the same token again answers 200 and changes
      nothing more. */
  lemma ConfirmIdempotent(db: Db, token: string)
    requires Confirm(db, token, false, false).status == Http.OK
    ensures var once := Confirm(db, token, false, false);
            Confirm(once.db, token, false, false) == once
  {
    var once := Confirm(db, token, false, false);
    var id := GetSubscriberIdFromToken(db.subscriptionTokens, token, false).value.value;
    var rows := SetConfirmed(db.subscriptions, id);
    assert once.db.subscriptions == rows;
    assert SetConfirmed(rows, id) == rows;
  }
}
