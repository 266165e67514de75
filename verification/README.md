# Newsletter backend: a Dafny model of its request logic

This project models the decision logic of a Rust newsletter service (actix-web, diesel, argon2, reqwest) and proves properties of it. People subscribe with an email and a name, confirm through a token, and an authenticated user publishes an issue that is emailed to every confirmed subscriber. The model covers six parts:

- **HTTP Basic credential parsing.** `basic_authentication` implements the "Basic" scheme of section 2 of RFC 7617. It sits on the standard base64 alphabet of section 4 of RFC 4648 and on strict UTF-8 (section 3.9 of the Unicode Standard, Table 3-7). All three layers are modelled concretely. The base64 step is `decode_config(_, base64::STANDARD)` of base64 0.13: padding is optional (the canonical `=` or fewer), while the alphabet, the grouping and the zero discarded bits are enforced. So the credential round trip is proved in both directions. A header built from credentials parses back to them. A header that parses is their Basic encoding, possibly missing some or all of its final `=`.
- **The publish pipeline.** `publish_newsletter` authenticates first and then loads the confirmed subscribers. It re-parses each stored email and sends to each valid one in order. It stops at the first failed send. `PublishError` maps to a response: a 401 with a `Basic realm="publish"` challenge, or a 500.
- **Credential validation and password change.** `validate_credentials` runs exactly one verification, against a fixed dummy PHC hash when the user is unknown. It folds "unknown user" and "wrong password" into the same error. `change_password` updates a single row.
- **The confirmation state machine.** `confirm` resolves a token to a subscriber and marks that subscriber `confirmed`.
- **The subscribe insert.** `subscribe` adds one row.
- **`SubscriberEmail` and the pure part of `EmailClient::send_email`.** That part is the outbound request and how its response status is classified.

The store is a value `Store.Db` holding one sequence of rows per table, in scan order. Each database call takes a boolean saying whether it fails. Argon2 and the PHC parser come in through `Authentication.Hasher`, and the email validator through `Emails.Validator`; both are total functions supplied by the caller. For the publish loop, the email network is a function from the attempt number to the response. `Lifecycle` ties the handlers together: after subscribe and then confirm, the subscriber is among the recipients of the next issue.

`error_for_status` (src/email_client.rs:53) fails on 4xx and 5xx responses only, so a 3xx response counts as a successful send (`EmailClient.Classify`).

## Model

| member | source | states |
|---|---|---|
| Utf8.DecodeEncode | src/routes/newsletter.rs:86-87 | `String::from_utf8` gives back every string from its UTF-8 bytes |
| Utf8.EncodeDecode | src/routes/newsletter.rs:86-87 | `from_utf8` accepts only well-formed bytes, and those are exactly the encoding of its result |
| Utf8.DecodeIff | src/routes/newsletter.rs:86-87 | decoding yields `s` exactly on the UTF-8 encoding of `s` |
| Utf8.Decode | src/routes/newsletter.rs:86-87 | `from_utf8` yields at most one character per octet and at least one per four octets |
| Base64.Decode | src/routes/newsletter.rs:83-84 | the canonical (padded) decoder accepts only whole four-character groups and yields three octets per group, less the padding |
| Base64.DecodeEncode | src/routes/newsletter.rs:83-84 | canonical base64 decoding inverts encoding for every byte string |
| Base64.EncodeDecode | src/routes/newsletter.rs:83-84 | every text the canonical decoder accepts is the encoding of what it decodes to |
| Base64.DecodeIff | src/routes/newsletter.rs:83-84 | canonical decoding yields `bs` exactly on the encoding of `bs` |
| Base64.DecodeIndifferent | src/routes/newsletter.rs:83-84 | the `STANDARD` decoder accepts every canonically padded text with the canonical result |
| Base64.DecodeIndifferentIff | src/routes/newsletter.rs:83-84 | the `STANDARD` decoder yields `bs` exactly on the encoding of `bs` with none, some or all of its final `=` left off |
| Http.Get | src/routes/newsletter.rs:73-75 | the header lookup finds the first value under the lower-cased name, and finds none exactly when no header has that name |
| Http.ToStr | src/routes/newsletter.rs:76-77 | `to_str` succeeds exactly when every octet is visible ASCII or tab, one character per octet |
| Http.ToStrAsciiBytes | src/routes/newsletter.rs:76-77 | `to_str` returns the printable text a header value was written from |
| BasicAuth.StripPrefix | src/routes/newsletter.rs:79-81 | the remainder exists exactly when the text starts with the prefix, and prefix plus remainder is the text |
| BasicAuth.SplitAtFirst | src/routes/newsletter.rs:90-98 | no split exactly when there is no colon; otherwise head, colon and tail rebuild the text and the head has no colon |
| BasicAuth.SplitAtFirstJoin | src/routes/newsletter.rs:90-98 | the split is at the first colon: a colon-free head joined to any tail splits back into exactly those parts |
| BasicAuth.BasicAuthentication | src/routes/newsletter.rs:71-103 | a missing header and a non-text value are each reported as their own error, and an extracted user name never holds a colon |
| BasicAuth.ParseEncodeHeader | src/routes/newsletter.rs:79-103 | round trip: the Basic header for a colon-free user name and any password, with or without its padding, parses back to exactly that pair, with further colons kept in the password |
| BasicAuth.EncodeHeaderOfParse | src/routes/newsletter.rs:71-103 | credentials are only extracted from a header that is their Basic encoding, possibly missing some of its final `=` |
| BasicAuth.BasicAuthenticationIff | src/routes/newsletter.rs:71-103 | parsing yields `c` if and only if the header is the Basic encoding of `c`, padding optional, and the user name has no colon |
| BasicAuth.UnpaddedSegmentAccepted | src/routes/newsletter.rs:83-84 | `Basic YTpiYw`, the encoding of `a:bc` without its `==`, yields user `a` and password `bc` |
| BasicAuth.SchemeIsCaseSensitive | src/routes/newsletter.rs:79-81 | a lower-case `basic ` scheme is refused as not Basic |
| BasicAuth.NoColonIsMissingPassword | src/routes/newsletter.rs:95-98 | decoded text with no colon is refused for a missing password |
| BasicAuth.NonAlphabetIsInvalidBase64 | src/routes/newsletter.rs:83-84 | a segment with characters outside the base64 alphabet is a base64 error |
| BasicAuth.NonUtf8IsInvalidUtf8 | src/routes/newsletter.rs:86-87 | valid base64 of bytes that are not UTF-8 is a UTF-8 error |
| BasicAuth.EmptyUsernameAccepted | src/routes/newsletter.rs:90-94 | the user-name step cannot fail, so an empty user name is accepted |
| Emails.Parse | src/domain/subscriber_email.rs:5-11 | parsing succeeds exactly when the validator accepts; the value views as its input; a refusal reads `<input> is not a valid subscriber email.` |
| Emails.ParseAsRef | src/domain/subscriber_email.rs:5-17 | re-parsing the text of a valid email gives the same value |
| Emails.TestedInputsRejected | src/domain/subscriber_email.rs:31-45 | under the validator facts the unit tests demand, `""`, `kkgmail.com` and `@gmail.com` are refused |
| EmailClient.BuildRequest | src/email_client.rs:31-50 | a POST to the base URL with `/email` appended verbatim; the token in `x-postmark-server-token`; JSON content type; a body with exactly the keys From, To, Subject, HtmlBody, TextBody carrying sender, recipient, subject, html and text unchanged |
| EmailClient.Classify | src/email_client.rs:51-53 | a send succeeds exactly when a status came back and it is not a 4xx or 5xx; an error status is reported with its code |
| EmailClient.ClassifyExamples | src/email_client.rs:162-227 | a 2xx status succeeds; a 500 and a timed-out transport both fail |
| EmailClient.SendEmail | src/email_client.rs:24-58 | the call POSTs to the base URL with "/email" appended, with the server token and JSON content type, and a body of exactly the five members reading back the sender, recipient, subject, html and text; it succeeds exactly when a non-error status comes back, and otherwise fails with that status or the transport error |
| Authentication.GetStoredCredentials | src/authentication.rs:25-46 | the first row with the user name gives the id and hash; a failed query or no match is an error |
| Authentication.VerifyPasswordHash | src/authentication.rs:52-68 | success exactly when the stored string parses as PHC and verifies the candidate; an unparsable string is the unexpected error and a mismatch is invalid credentials |
| Authentication.ValidateCredentials | src/authentication.rs:72-109 | exactly one verification of the candidate: against the dummy hash when the user is unknown or the lookup failed, otherwise against the first matching row's hash; success needs a known user whose hash verifies |
| Authentication.KnownUserAccepted | src/authentication.rs:84-106 | a known user whose password verifies gets the first matching row's id, after one verification against that row's hash |
| Authentication.WrongPasswordRejected | src/authentication.rs:61-67 | a mismatch against the stored hash is invalid credentials |
| Authentication.MalformedStoredHashIsUnexpected | src/authentication.rs:56-57 | a stored hash that is not PHC is an unexpected error, not invalid credentials |
| Authentication.UnknownUserRejected | src/authentication.rs:84-108 | an unknown user is verified once against the dummy hash and refused as invalid credentials, even when the candidate matches the dummy hash |
| Authentication.LookupFailureIsUnknownUser | src/authentication.rs:84-91 | a failing lookup behaves exactly like an unknown user and never surfaces as an unexpected error |
| Authentication.SetHash | src/authentication.rs:122-125 | the update rewrites the hash of the rows with the given id and keeps every other row |
| Authentication.ChangePassword | src/authentication.rs:112-128 | a failed update is an error; otherwise only the hashes of that user's rows change, to the hash of the new password, and every other table and user is unchanged |
| Authentication.ChangedPasswordValidates | src/authentication.rs:112-128 | after a change, the new password validates for that user |
| Subscriptions.Subscribe | src/routes/subscriptions.rs:28-54 | 200 exactly when the insert succeeds and the id is fresh; otherwise 500 with the store unchanged; a success appends one row and keeps every existing row |
| Subscriptions.SubscribeAddsOneRow | src/routes/subscriptions.rs:34-43 | the new row has the form's email and name, the fresh id and the default status |
| Subscriptions.SubscribePreservesUniqueIds | src/routes/subscriptions.rs:35-43 | subscription ids stay unique |
| Subscriptions.SubscribeStoresUnvalidatedInput | src/routes/subscriptions.rs:34-37 | the handler stores an email the validator would refuse, verbatim |
| Subscriptions.SubscribeScenario | tests/api/subscriptions.rs:30-57 | the form the repository's test submits gives 200 and a pending row with the decoded email and name |
| Confirmation.GetSubscriberIdFromToken | src/routes/subscriptions_confirm.rs:66-94 | a failed query is an error; otherwise no id exactly when no token row matches, and the first matching row's subscriber otherwise |
| Confirmation.SetConfirmed | src/routes/subscriptions_confirm.rs:47-49 | the rows with the id become confirmed and every other row is kept |
| Confirmation.ConfirmSubscriber | src/routes/subscriptions_confirm.rs:39-63 | a failed update is an error; otherwise only the status of the rows with the id changes, to confirmed |
| Confirmation.Confirm | src/routes/subscriptions_confirm.rs:20-36 | 401 exactly when the lookup succeeds and finds no token, 200 exactly when neither call fails and the token exists, 500 otherwise; tokens and users never change, and a non-200 leaves the store unchanged |
| Confirmation.ConfirmKnownToken | src/routes/subscriptions_confirm.rs:21-34 | a known token gives 200 and confirms exactly the subscriber named by its first row |
| Confirmation.ConfirmIsMonotone | src/routes/subscriptions_confirm.rs:47-49 | confirm only writes confirmed: no subscriber goes back to pending |
| Confirmation.ConfirmIdempotent | src/routes/subscriptions_confirm.rs:20-54 | confirming the same token again answers 200 and changes nothing |
| Newsletter.DescribeParseError | src/routes/newsletter.rs:71-103 | the `.context(...)` message of each failing step of `basic_authentication`, in the source's words |
| Newsletter.ParseErrorMessagesDistinct | src/routes/newsletter.rs:71-103 | two parse failures give the same message exactly when they failed at the same step |
| Newsletter.ErrorResponse | src/routes/newsletter.rs:51-69 | an authentication error is a 401 with the `Basic realm="publish"` challenge, and an unexpected error is a 500 with no headers |
| Newsletter.ParseAll | src/routes/newsletter.rs:115-121 | one entry per row, valid exactly when the row's email validates, and a valid entry views as that email |
| Newsletter.Recipients | src/routes/newsletter.rs:150-176 | the loop's recipients are the parsed entries, none added and none lost |
| Newsletter.ConfirmedSubscribers | src/routes/newsletter.rs:106-124 | a failed query is an error; otherwise one entry per confirmed row in order, each valid exactly when that row's email validates |
| Newsletter.SendIssue | src/routes/newsletter.rs:153-165 | the loop's `send_email` call posts to the service's "/email" endpoint a body addressed to the subscriber with the issue's title, html and text, and succeeds exactly when a non-error status comes back |
| Newsletter.SendFailed | src/routes/newsletter.rs:163-165 | a failed send ends the publish with an unexpected error whose cause ends with the recipient's address |
| Newsletter.SendAll | src/routes/newsletter.rs:150-177 | the loop sends to a prefix of the valid recipients in order, each request being the issue addressed to its recipient; it stops right after the first failed send with an unexpected error, and ends cleanly only after sending to all of them successfully |
| Newsletter.SendFrom | src/routes/newsletter.rs:152-165 | from the i-th recipient on, the loop calls its send step in order for a prefix of the recipients and keeps each call's request; every call before the last succeeded, a failed call ends it with the error naming that recipient, and it ends cleanly only after every call succeeded |
| Newsletter.IssueLoop | src/routes/newsletter.rs:152-165 | run with `send_email` of the issue, the loop's requests are the issue for each recipient sent to, and its sends succeed exactly where the answers are delivered |
| Newsletter.SendAllSucceedsIff | src/routes/newsletter.rs:150-179 | the loop ends without error if and only if every recipient's send succeeds |
| Newsletter.PublishNewsletter | src/routes/newsletter.rs:131-138 | the header is parsed first: a request without usable credentials verifies nothing and sends nothing, a parsed request verifies exactly once, the response follows the outcome, and anything sent implies valid credentials |
| Newsletter.PublishWith | src/routes/newsletter.rs:137-180 | given the parse outcome: a parse error verifies and sends nothing, credentials are verified exactly once, the response is the JSON 200 on success and the error's response otherwise, and nothing is sent unless the credentials validated |
| Newsletter.RecipientsAreValidConfirmed | src/routes/newsletter.rs:111-121 | the loop's recipients are exactly the confirmed rows whose stored email validates, in storage order |
| Newsletter.InRecipientAddresses | src/routes/newsletter.rs:111-121 | an address is a recipient if and only if some confirmed row with a valid email holds it |
| Newsletter.InvalidStoredEmailSkipped | src/routes/newsletter.rs:150-177 | a confirmed subscriber whose stored email no longer validates is skipped and the rest keep their order |
| Newsletter.MalformedCredentialsRejectedFirst | src/routes/newsletter.rs:137 | a missing or malformed Authorization header gets the 401 challenge before any verification, load or send |
| Newsletter.RejectedCredentialsSendNothing | src/routes/newsletter.rs:140-145 | invalid credentials give the 401 challenge and an unexpected validation error gives a 500; neither sends anything |
| Newsletter.InvalidCredentialsLookAlike | src/routes/newsletter.rs:140-145 | an unknown user and a wrong password get identical responses |
| Newsletter.SubscriberLoadFailureIsUnexpected | src/routes/newsletter.rs:148 | after authentication, a failed subscriber query is a 500 and nothing is sent |
| Newsletter.PublishIsFanOut | src/routes/newsletter.rs:148-179 | past authentication and the subscriber load, the publish sends the loop's requests, answers 200 exactly when the loop ends cleanly, and otherwise fails with the loop's error as a 500 with no headers (src/routes/newsletter.rs:52-56) |
| Newsletter.LoopReachesIntended | src/routes/newsletter.rs:150-176 | the loop over the stored subscribers sends to the intended recipients in order and ends cleanly exactly when each of their sends is delivered, having then sent to all of them |
| Newsletter.PublishSucceedsIff | src/routes/newsletter.rs:148-179 | an authenticated publish answers 200 if and only if every intended recipient's send succeeds, and 500 otherwise; the requests go to the intended recipients in order with the issue's title, html and text, and a 200 covers them all |
| Lifecycle.SubscribeAddsNoRecipient | src/routes/subscriptions.rs:21-43 | a new row that does not start confirmed leaves the recipients unchanged |
| Lifecycle.ConfirmedSubscriberIsRecipient | src/routes/subscriptions_confirm.rs:47-49 | confirming through a token makes the named subscriber a recipient when the stored email is valid |
| Lifecycle.SubscribeThenConfirm | src/routes/subscriptions_confirm.rs:20-36 | a new pending subscriber is not a recipient, and becomes one once its token is confirmed |

## Left out

- Argon2 hashing and verification and PHC parsing are foreign crypto code. They are the three functions of `Authentication.Hasher`. Salt generation (`SaltString::generate`) is randomness: it is the `salt` parameter of `Authentication.ChangePassword`. The timing side of the dummy-hash defence reduces to "exactly one verification per call".
- `validator::validate_email` is an external library, so `Emails.Validator` stays abstract. Only the refusals the unit tests demand are stated, in `Emails.RejectsTestedInputs`.
- The async scheduling is not modelled: `spawn_blocking_with_tracing`, `web::block`, join and cancellation errors. Every call is sequential.
- A join error around hashing or verification is not modelled. In `validate_credentials` (src/authentication.rs:93-97) it would be one more unexpected error, a 500. In `change_password` (src/authentication.rs:117-119) it would be an error before any update.
- Pool `expect` panics (`pool.get().expect(...)`) are not modelled. Inside `web::block` (subscribe, and the two queries of confirm) such a panic is one more way the call fails with 500, which the `fails` flags cover. Outside it (`get_stored_credentials`, `get_confirmed_subscribers`, `change_password`) it does not become a response.
- The 400 answers actix's extractors give before a handler runs are not modelled: a form without `email` or `name`, a confirm request without `subscription_token`, and a publish body that is not the expected JSON. So for publish, "the header is parsed first" holds only once the body has been extracted.
- The reqwest HTTP exchange, the client timeout and `EmailClient::timeout` reading `TIMEOUT_MILLISECOND` from the environment are I/O. The response to each send is a parameter, and a timeout is `TransportFailure`.
- `Uuid::new_v4()` and `Utc::now()` are randomness and a clock. They are parameters of `Subscriptions.Subscribe`. The salt of a password change is the `salt` parameter of `Authentication.ChangePassword`.
- The `status` column default is a parameter. The tests observe it as `pending_confirmation`.
- JSON serialisation to bytes is not modelled. The request body is the ordered list of its members, and the 200 body of a publish (the user id as JSON) is represented by the result value.
- Subscribe input validation returning 400, token generation and confirmation emails appear in the tests only. The shown code does not implement them.
- Signature mismatches between the source and its tests are not modelled:
  - `startup::run` takes two arguments but the tests call it with three;
  - `send_email` takes the recipient by value but is passed a reference;
  - `format!("{}", subscriber.email)` uses `Display`, which `SubscriberEmail` does not implement.
- The display text of a diesel error is not modelled. Where the source passes a database error on as it is, the cause reads as the stand-in `Store.DB_ERROR_MESSAGE`.
- Tracing spans, `println!` and the warning logged for a skipped subscriber are logging. The error text of an `AuthError` parse failure is kept only as a message string.
- Server wiring is not part of this model: `src/db.rs`, `src/startup.rs`, `src/main.rs`, `src/lib.rs` and `src/routes/admin/dashboard.rs`.
