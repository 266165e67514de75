/** Credential checking and password change (src/authentication.rs).
    Argon2 and the PHC-string parser are not opened: a `Hasher` supplies
    them as total functions. */
module Authentication {
  import opened Wrappers
  import Seqs
  import opened Store
  import BasicAuth

  /** The `argon2` / `password-hash` operations the code calls:
      `parsesPhc(s)`   — `PasswordHash::new(s)` succeeds;
      `verifies(s, p)` — `verify_password(p, &PasswordHash::new(s))` succeeds;
      `hash(p, salt)`  — `hash_password(p, salt).to_string()`. */
  datatype Hasher = Hasher(parsesPhc: string -> bool, verifies: (string, string) -> bool, hash: (string, string) -> string)

  /** The fixed PHC string checked when the user name is unknown, so that an
      unknown name costs one full Argon2 verification like a known one. */
  const DUMMY_PHC: string :=
    "$argon2id$v=19$m=15000,t=2,p=1$gZiV/M1gPc22ElAH/Jh1Hw$CWOrkoo7oJBQ/iyh7uJ0LO2aLEfrHwTWllSAxT0zRno"

  datatype AuthError = InvalidCredentials(cause: string) | UnexpectedError(cause: string)

  /** One invocation of `verify_password_hash`: the PHC string and the
      candidate password it was given. */
  datatype VerifyCall = VerifyCall(expectedHash: string, candidate: string)

  predicate HasUsername(users: seq<User>, name: string) {
    exists i :: 0 <= i < |users| && users[i].username == name
  }

  /** `get_stored_credentials`: the id and hash of the first row with the
      user name; an error when the query fails or no row matches. */
  function GetStoredCredentials(users: seq<User>, name: string, loadFails: bool): (r: Result<(Uuid, string), string>)
    ensures r.Failure? <==> loadFails || !HasUsername(users, name)
    ensures r.Success? ==> exists i :: 0 <= i < |users| && users[i].username == name
                             && r.value == (users[i].userId, users[i].passwordHash)
                             && forall j :: 0 <= j < i ==> users[j].username != name
  {
    if loadFails then Failure("Failed to perform a query to retrieve stored credentials.")
    else match Seqs.FirstIndex(users, (u: User) => u.username == name)
      case None => Failure("Invalid username or password.")
      case Some(i) => Success((users[i].userId, users[i].passwordHash))
  }

  /** `verify_password_hash`: an unparsable PHC string is an unexpected
      error (through `?` and `#[from]`), a mismatch is invalid credentials. */
  function VerifyPasswordHash(h: Hasher, expected: string, candidate: string): (r: Result<(), AuthError>)
    ensures r.Success? <==> h.parsesPhc(expected) && h.verifies(expected, candidate)
    ensures r.Failure? ==> (r.error.UnexpectedError? <==> !h.parsesPhc(expected))
  {
    if !h.parsesPhc(expected) then Failure(UnexpectedError("Failed to parse hash in PHC string format."))
    else if h.verifies(expected, candidate) then Success(())
    else Failure(InvalidCredentials("Invalid password."))
  }

  /** The outcome of `validate_credentials` together with the verifications
      it ran. */
  datatype Validation = Validation(result: Result<Uuid, AuthError>, verifyCalls: seq<VerifyCall>)

  /** `validate_credentials`: look the user up (any lookup failure counts as
      an unknown user), verify the candidate once against the stored hash or
      the dummy one, and only then turn an unknown user into invalid
      credentials. */
  function ValidateCredentials(h: Hasher, users: seq<User>, c: BasicAuth.Credentials, loadFails: bool): (v: Validation)
    ensures |v.verifyCalls| == 1 && v.verifyCalls[0].candidate == c.password
    ensures loadFails || !HasUsername(users, c.username) ==> v.verifyCalls[0].expectedHash == DUMMY_PHC
    ensures !loadFails && HasUsername(users, c.username) ==>
              exists i :: 0 <= i < |users| && users[i].username == c.username
                          && (forall j :: 0 <= j < i ==> users[j].username != c.username)
                          && v.verifyCalls[0].expectedHash == users[i].passwordHash
    ensures v.result.Success? ==> !loadFails && HasUsername(users, c.username)
    ensures v.result.Success? ==> h.verifies(v.verifyCalls[0].expectedHash, c.password)
  {
    var stored := GetStoredCredentials(users, c.username, loadFails);
    var (idUser, expected) :=
      if stored.Success? then (Some(stored.value.0), stored.value.1) else (None, DUMMY_PHC);
    var calls := [VerifyCall(expected, c.password)];
    match VerifyPasswordHash(h, expected, c.password)
    case Failure(e) => Validation(Failure(e), calls)
    case Success(_) =>
      match idUser
      case None => Validation(Failure(InvalidCredentials("Unknown username.")), calls)
      case Some(id) => Validation(Success(id), calls)
  }

  /** The PHC parser accepts the dummy string (it is well-formed PHC). */
  predicate AcceptsDummy(h: Hasher) {
    h.parsesPhc(DUMMY_PHC)
  }

  /** A known user whose password verifies gets the id of the first row
      with that user name. */
  lemma KnownUserAccepted(h: Hasher, users: seq<User>, c: BasicAuth.Credentials, i: nat)
    requires i < |users| && users[i].username == c.username
    requires forall j :: 0 <= j < i ==> users[j].username != c.username
    requires h.parsesPhc(users[i].passwordHash) && h.verifies(users[i].passwordHash, c.password)
    ensures ValidateCredentials(h, users, c, false) ==
              Validation(Success(users[i].userId), [VerifyCall(users[i].passwordHash, c.password)])
  {
    var r := GetStoredCredentials(users, c.username, false);
    assert r.Success?;
    var k :| 0 <= k < |users| && users[k].username == c.username
             && r.value == (users[k].userId, users[k].passwordHash)
             && forall j :: 0 <= j < k ==> users[j].username != c.username;
    assert k == i;
  }

  /** A known user whose stored hash rejects the password gets invalid
      credentials; the stored hash was the one checked. */
  lemma WrongPasswordRejected(h: Hasher, users: seq<User>, c: BasicAuth.Credentials, i: nat)
    requires i < |users| && users[i].username == c.username
    requires forall j :: 0 <= j < i ==> users[j].username != c.username
    requires h.parsesPhc(users[i].passwordHash) && !h.verifies(users[i].passwordHash, c.password)
    ensures var v := ValidateCredentials(h, users, c, false);
            v.result.Failure? && v.result.error.InvalidCredentials?
            && v.verifyCalls == [VerifyCall(users[i].passwordHash, c.password)]
  {
    var r := GetStoredCredentials(users, c.username, false);
    var k :| 0 <= k < |users| && users[k].username == c.username
             && r.value == (users[k].userId, users[k].passwordHash)
             && forall j :: 0 <= j < k ==> users[j].username != c.username;
    assert k == i;
  }

  /** A stored hash that is not a PHC string is an unexpected error, not
      invalid credentials. */
  lemma MalformedStoredHashIsUnexpected(h: Hasher, users: seq<User>, c: BasicAuth.Credentials, i: nat)
    requires i < |users| && users[i].username == c.username
    requires forall j :: 0 <= j < i ==> users[j].username != c.username
    requires !h.parsesPhc(users[i].passwordHash)
    ensures var v := ValidateCredentials(h, users, c, false);
            v.result.Failure? && v.result.error.UnexpectedError?
  {
    var r := GetStoredCredentials(users, c.username, false);
    var k :| 0 <= k < |users| && users[k].username == c.username
             && r.value == (users[k].userId, users[k].passwordHash)
             && forall j :: 0 <= j < k ==> users[j].username != c.username;
    assert k == i;
  }

  /** An unknown user name is verified against the dummy hash and then
      refused, even when the candidate happens to match the dummy hash. */
  lemma UnknownUserRejected(h: Hasher, users: seq<User>, c: BasicAuth.Credentials, loadFails: bool)
    requires AcceptsDummy(h)
    requires loadFails || !HasUsername(users, c.username)
    ensures var v := ValidateCredentials(h, users, c, loadFails);
            v.result.Failure? && v.result.error.InvalidCredentials?
            && v.verifyCalls == [VerifyCall(DUMMY_PHC, c.password)]
  {
  }

  /** A failing user lookup is indistinguishable from an empty user table:
      storage errors never surface as unexpected errors. */
  lemma LookupFailureIsUnknownUser(h: Hasher, users: seq<User>, c: BasicAuth.Credentials)
    ensures ValidateCredentials(h, users, c, true) == ValidateCredentials(h, [], c, false)
  {
  }

  /** `SetHash`: every row with `id` gets `hash`, every other row is kept. */
  function SetHash(users: seq<User>, id: Uuid, hash: string): (r: seq<User>)
    ensures |r| == |users|
    ensures forall i :: 0 <= i < |users| ==>
              r[i] == if users[i].userId == id then users[i].(passwordHash := hash) else users[i]
  {
    if |users| == 0 then []
    else [if users[0].userId == id then users[0].(passwordHash := hash) else users[0]]
         + SetHash(users[1..], id, hash)
  }

  /** `change_password`: hash the new password with a fresh salt, then
      update the rows of that user; a failed update is an error and changes
      nothing. Updating an id no row has succeeds and changes nothing. */
  function ChangePassword(h: Hasher, db: Db, id: Uuid, password: string, salt: string, updateFails: bool): (r: Result<Db, string>)
    ensures r.Failure? <==> updateFails
    ensures r.Success? ==> r.value.subscriptions == db.subscriptions && r.value.subscriptionTokens == db.subscriptionTokens
    ensures r.Success? ==> |r.value.users| == |db.users|
    ensures r.Success? ==> forall i :: 0 <= i < |db.users| ==>
              r.value.users[i].userId == db.users[i].userId && r.value.users[i].username == db.users[i].username
    ensures r.Success? ==> forall i :: 0 <= i < |db.users| ==>
              r.value.users[i].passwordHash == if db.users[i].userId == id then h.hash(password, salt) else db.users[i].passwordHash
  {
    var hashed := h.hash(password, salt);
    if updateFails then Failure("Failed to update password in database: " + DB_ERROR_MESSAGE)
    else Success(db.(users := SetHash(db.users, id, hashed)))
  }

  /** After a password change, the new password is what logs that user in,
      provided the hasher verifies its own output and the user's name first
      resolves to that user. */
  lemma ChangedPasswordValidates(h: Hasher, db: Db, i: nat, password: string, salt: string)
    requires i < |db.users|
    requires forall j :: 0 <= j < i ==> db.users[j].username != db.users[i].username
    requires h.parsesPhc(h.hash(password, salt)) && h.verifies(h.hash(password, salt), password)
    ensures var r := ChangePassword(h, db, db.users[i].userId, password, salt, false);
            r.Success? &&
            ValidateCredentials(h, r.value.users, BasicAuth.Credentials(db.users[i].username, password), false).result
              == Success(db.users[i].userId)
  {
    var r := ChangePassword(h, db, db.users[i].userId, password, salt, false);
    KnownUserAccepted(h, r.value.users, BasicAuth.Credentials(db.users[i].username, password), i);
  }
}
