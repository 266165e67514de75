/** `publish_newsletter` (src/routes/newsletter.rs): authenticate with HTTP
    Basic credentials, load the confirmed subscribers, and send the issue to
    each one in turn. The email network is `net`: the response to the n-th
    send of this request is `net(n)`. */
module Newsletter {
  import opened Wrappers
  import Seqs
  import opened Store
  import Http
  import Emails
  import EmailClient
  import BasicAuth
  import Authentication

  /** The JSON body `{title, content: {html, text}}`. */
  datatype BodyData = BodyData(title: string, html: string, text: string)

  datatype PublishError = AuthError(cause: string) | UnexpectedError(cause: string)

  const WWW_AUTHENTICATE: string := "www-authenticate"
  const PUBLISH_CHALLENGE: string := "Basic realm=\"publish\""

  /** `ResponseError::error_response`: 500 for an unexpected error; 401 with
      a Basic challenge for the "publish" realm for an authentication error. */
  function ErrorResponse(e: PublishError): (r: Http.Response)
    ensures r.status == Http.UNAUTHORIZED <==> e.AuthError?
    ensures r.status == Http.INTERNAL_SERVER_ERROR <==> e.UnexpectedError?
    ensures e.AuthError? ==> r.headers == [(WWW_AUTHENTICATE, PUBLISH_CHALLENGE)]
    ensures e.UnexpectedError? ==> r.headers == []
  {
    match e
    case UnexpectedError(_) => Http.Response(Http.INTERNAL_SERVER_ERROR, [])
    case AuthError(_) => Http.Response(Http.UNAUTHORIZED, [(WWW_AUTHENTICATE, PUBLISH_CHALLENGE)])
  }

  /** The `.context(...)` message of the step of `basic_authentication`
      that failed with `e`. */
  function DescribeParseError(e: BasicAuth.ParseError): string {
    match e
    case MissingHeader => "The 'Authorization' header was missing"
    case NotAString => "The 'Authorization' header was not a valid UTF8 string."
    case NotBasicScheme => "The authorization scheme was not 'Basic'."
    case InvalidBase64 => "Failed to base64-decode 'Basic' credentials."
    case InvalidUtf8 => "The decoded credential string is not valid UTF8."
    case MissingPassword => "A password must be provided in 'Basic' auth."
  }

  /** Each failing step of the header parse reports a message of its own,
      so the 401's cause tells which step failed. */
  lemma ParseErrorMessagesDistinct(e1: BasicAuth.ParseError, e2: BasicAuth.ParseError)
    ensures DescribeParseError(e1) == DescribeParseError(e2) <==> e1 == e2
  {
    MessageShape(e1);
    MessageShape(e2);
  }

  /** The length and next-to-last character of each message; no two errors
      share both. */
  function Shape(e: BasicAuth.ParseError): (int, char) {
    match e
    case MissingHeader => (38, 'n')
    case NotAString => (55, 'g')
    case NotBasicScheme => (41, '\'')
    case InvalidBase64 => (44, 's')
    case InvalidUtf8 => (48, '8')
    case MissingPassword => (44, 'h')
  }

  lemma MessageShape(e: BasicAuth.ParseError)
    ensures var m := DescribeParseError(e);
            |m| == Shape(e).0 && m[|m| - 2] == Shape(e).1
  {
  }

  /** The rows `WHERE status = 'confirmed'`, in storage order. */
  function ConfirmedRows(rows: seq<Subscription>): seq<Subscription> {
    Seqs.Filter(rows, IsConfirmed)
  }

  type Entry = Result<Emails.SubscriberEmail, string>

  /** `get_confirmed_subscribers`: one entry per confirmed row, in order,
      each the result of re-parsing that row's stored email; the whole call
      fails when the query does. */
  function ConfirmedSubscribers(validate: Emails.Validator, rows: seq<Subscription>, loadFails: bool): (r: Result<seq<Entry>, string>)
    ensures r.Failure? <==> loadFails
    ensures r.Success? ==> |r.value| == |ConfirmedRows(rows)|
    ensures r.Success? ==> forall i :: 0 <= i < |r.value| ==>
              (r.value[i].Success? <==> validate(ConfirmedRows(rows)[i].email))
    ensures r.Success? ==> forall i :: 0 <= i < |r.value| && r.value[i].Success? ==>
              Emails.AsRef(r.value[i].value) == ConfirmedRows(rows)[i].email
  {
    if loadFails then Failure(DB_ERROR_MESSAGE)
    else
      Success(ParseAll(validate, ConfirmedRows(rows)))
  }

  function ParseAll(validate: Emails.Validator, rows: seq<Subscription>): (es: seq<Entry>)
    ensures |es| == |rows|
    ensures forall i :: 0 <= i < |rows| ==> (es[i].Success? <==> validate(rows[i].email))
    ensures forall i :: 0 <= i < |rows| && es[i].Success? ==> Emails.AsRef(es[i].value) == rows[i].email
  {
    seq(|rows|, i requires 0 <= i < |rows| => Emails.Parse(validate, rows[i].email))
  }

  /** The addresses of the entries that parsed, in order: those the loop
      sends to. */
  function Recipients(entries: seq<Entry>): (rs: seq<Emails.SubscriberEmail>)
    ensures |rs| <= |entries|
    ensures forall i :: 0 <= i < |rs| ==> Success(rs[i]) in entries
    ensures forall i :: 0 <= i < |entries| && entries[i].Success? ==> entries[i].value in rs
  {
    if |entries| == 0 then []
    else (if entries[0].Success? then [entries[0].value] else []) + Recipients(entries[1..])
  }

  predicate Delivered(resp: EmailClient.Response) {
    EmailClient.Classify(resp).Success?
  }

  /** The request the loop builds for one recipient. */
  function Issue(client: EmailClient.EmailClient, body: BodyData, to: Emails.SubscriberEmail): EmailClient.OutboundRequest {
    EmailClient.BuildRequest(client, to, body.title, body.html, body.text)
  }

  /** The loop's `send_email` call for one recipient: it posts the issue's
      title, html and text to `to` at the service's "/email" endpoint, and
      succeeds exactly when a non-error status comes back. */
  function SendIssue(client: EmailClient.EmailClient, body: BodyData, to: Emails.SubscriberEmail,
                     resp: EmailClient.Response): (s: EmailClient.Sent)
    ensures s.request.url == client.baseUrl + EmailClient.EMAIL_PATH
    ensures EmailClient.Member(s.request.body, "To") == Some(Emails.AsRef(to))
    ensures EmailClient.Member(s.request.body, "Subject") == Some(body.title)
    ensures EmailClient.Member(s.request.body, "HtmlBody") == Some(body.html)
    ensures EmailClient.Member(s.request.body, "TextBody") == Some(body.text)
    ensures s.outcome.Success? <==> resp.Status? && !EmailClient.IsErrorStatus(resp.code)
  {
    EmailClient.SendEmail(client, to, body.title, body.html, body.text, resp)
  }

  /** The loop's sends: the k-th, to `to`, is `SendIssue` answered by
      `net(k)`. */
  function IssueSends(client: EmailClient.EmailClient, body: BodyData, net: nat -> EmailClient.Response)
    : (send: (Emails.SubscriberEmail, nat) -> EmailClient.Sent)
  {
    (to: Emails.SubscriberEmail, k: nat) => SendIssue(client, body, to, net(k))
  }

  /** The error that ends the loop when sending to `to` fails: an
      unexpected error whose cause ends with the recipient's address. */
  function SendFailed(to: Emails.SubscriberEmail): (e: PublishError)
    ensures e.UnexpectedError?
    ensures |e.cause| > |Emails.AsRef(to)| && e.cause[|e.cause| - |Emails.AsRef(to)|..] == Emails.AsRef(to)
  {
    UnexpectedError("Failed to send newsletter issue to " + Emails.AsRef(to))
  }

  /** How far the loop got: the recipients it called `send_email` for, in
      order, the requests those calls put on the wire, and the error that
      stopped it if one did. */
  datatype FanOut = FanOut(sentTo: seq<Emails.SubscriberEmail>, requests: seq<EmailClient.OutboundRequest>, failure: Option<PublishError>)

  /** The `for subscriber in subscribers` loop: an entry that did not parse
      is skipped with a warning, so the loop sends to `Recipients(entries)`
      in order (`SendFrom`), each time calling `send_email` for the issue
      (`SendIssue`). `net(k)` is the response to the k-th send of the loop.
      The loop sends to a prefix of the recipients, stops right after the
      first failed send, and finishes cleanly exactly when it sent to every
      recipient successfully. Each request is the issue addressed to its
      recipient. */
  function SendAll(client: EmailClient.EmailClient, body: BodyData, entries: seq<Entry>, net: nat -> EmailClient.Response): (f: FanOut)
    ensures |f.sentTo| <= |Recipients(entries)| && f.sentTo == Recipients(entries)[..|f.sentTo|]
    ensures f.requests == Requests(client, body, f.sentTo)
    ensures forall i: nat :: i < |f.sentTo| - 1 ==> Delivered(net(i))
    ensures f.failure.None? ==> f.sentTo == Recipients(entries) && forall i: nat :: i < |f.sentTo| ==> Delivered(net(i))
    ensures f.failure.Some? ==> |f.sentTo| > 0 && !Delivered(net(|f.sentTo| - 1))
                                && f.failure.value == SendFailed(f.sentTo[|f.sentTo| - 1])
  {
    var f := SendFrom(IssueSends(client, body, net), Recipients(entries), 0);
    IssueLoop(client, body, Recipients(entries), net);
    f
  }

  /** The loop from its `i`-th send on, the first `i` recipients having been
      sent to successfully: `send` to `rs[i]` as the `i`-th send and stop with
      an unexpected error if that fails, otherwise carry on with the next
      one. The requests are those of the sends from the `i`-th on. */
  function SendFrom(send: (Emails.SubscriberEmail, nat) -> EmailClient.Sent, rs: seq<Emails.SubscriberEmail>, i: nat): (f: FanOut)
    requires i <= |rs|
    ensures i <= |f.sentTo| <= |rs| && f.sentTo == rs[..|f.sentTo|]
    ensures |f.requests| == |f.sentTo| - i
            && forall j: nat :: i <= j < |f.sentTo| ==> f.requests[j - i] == send(rs[j], j).request
    ensures forall j: nat :: i <= j < |f.sentTo| - 1 ==> send(rs[j], j).outcome.Success?
    ensures f.failure.None? ==> f.sentTo == rs && forall j: nat :: i <= j < |rs| ==> send(rs[j], j).outcome.Success?
    ensures f.failure.Some? ==> |f.sentTo| > i && send(rs[|f.sentTo| - 1], |f.sentTo| - 1).outcome.Failure?
                                && f.failure.value == SendFailed(f.sentTo[|f.sentTo| - 1])
    decreases |rs| - i
  {
    if i == |rs| then FanOut(rs, [], None)
    else
      var s := send(rs[i], i);
      if s.outcome.Failure? then FanOut(rs[..i + 1], [s.request], Some(SendFailed(rs[i])))
      else
        var rest := SendFrom(send, rs, i + 1);
        FanOut(rest.sentTo, [s.request] + rest.requests, rest.failure)
  }

  /** The k-th of the loop's sends, to `to`, puts the issue for `to` on the
      wire. */
  lemma IssueSendRequest(client: EmailClient.EmailClient, body: BodyData, net: nat -> EmailClient.Response,
                         to: Emails.SubscriberEmail, k: nat)
    ensures IssueSends(client, body, net)(to, k).request == Issue(client, body, to)
  {
    var s := IssueSends(client, body, net)(to, k);
    assert s == SendIssue(client, body, to, net(k));
    assert s == EmailClient.SendEmail(client, to, body.title, body.html, body.text, net(k));
  }

  /** The k-th of the loop's sends succeeds exactly when `net(k)` is
      delivered. */
  lemma IssueSendOutcome(client: EmailClient.EmailClient, body: BodyData, net: nat -> EmailClient.Response,
                         to: Emails.SubscriberEmail, k: nat)
    ensures IssueSends(client, body, net)(to, k).outcome.Success? <==> Delivered(net(k))
  {
    assert IssueSends(client, body, net)(to, k) == SendIssue(client, body, to, net(k));
  }

  /** The loop run with the issue's sends: its requests are the issue
      addressed to each recipient sent to, and its sends succeed exactly
      where the answers are delivered. */
  lemma IssueLoop(client: EmailClient.EmailClient, body: BodyData, rs: seq<Emails.SubscriberEmail>,
                  net: nat -> EmailClient.Response)
    ensures var f := SendFrom(IssueSends(client, body, net), rs, 0);
            && f.requests == Requests(client, body, f.sentTo)
            && (forall i: nat :: i < |f.sentTo| - 1 ==> Delivered(net(i)))
            && (f.failure.None? ==> forall i: nat :: i < |rs| ==> Delivered(net(i)))
            && (f.failure.Some? ==> !Delivered(net(|f.sentTo| - 1)))
  {
    var send := IssueSends(client, body, net);
    forall to, k: nat
      ensures send(to, k).request == Issue(client, body, to)
      ensures send(to, k).outcome.Success? <==> Delivered(net(k))
    {
      IssueSendRequest(client, body, net, to, k);
      IssueSendOutcome(client, body, net, to, k);
    }
    LoopRequests(client, body, send, rs);
    LoopOutcomes(send, rs, net);
  }

  /** A loop whose every send puts the issue for its recipient on the wire
      sends the issue to each recipient it reaches. */
  lemma LoopRequests(client: EmailClient.EmailClient, body: BodyData,
                     send: (Emails.SubscriberEmail, nat) -> EmailClient.Sent, rs: seq<Emails.SubscriberEmail>)
    requires forall to, k: nat :: send(to, k).request == Issue(client, body, to)
    ensures var f := SendFrom(send, rs, 0);
            f.requests == Requests(client, body, f.sentTo)
  {
    var f := SendFrom(send, rs, 0);
    forall j | 0 <= j < |f.sentTo|
      ensures f.requests[j] == Requests(client, body, f.sentTo)[j]
    {
      assert f.requests[j] == send(rs[j], j).request;
    }
  }

  /** A loop whose k-th send succeeds exactly when `net(k)` is delivered
      ends the way the answers say. */
  lemma LoopOutcomes(send: (Emails.SubscriberEmail, nat) -> EmailClient.Sent, rs: seq<Emails.SubscriberEmail>,
                     net: nat -> EmailClient.Response)
    requires forall to, k: nat :: send(to, k).outcome.Success? <==> Delivered(net(k))
    ensures var f := SendFrom(send, rs, 0);
            && (forall i: nat :: i < |f.sentTo| - 1 ==> Delivered(net(i)))
            && (f.failure.None? ==> forall i: nat :: i < |rs| ==> Delivered(net(i)))
            && (f.failure.Some? ==> !Delivered(net(|f.sentTo| - 1)))
  {
    var f := SendFrom(send, rs, 0);
    forall i: nat | i < |f.sentTo| - 1
      ensures Delivered(net(i))
    {
      assert send(rs[i], i).outcome.Success?;
    }
    if f.failure.None? {
      forall i: nat | i < |rs|
        ensures Delivered(net(i))
      {
        assert send(rs[i], i).outcome.Success?;
      }
    }
  }

  /** The loop ends without error exactly when every recipient's send
      succeeded. */
  lemma SendAllSucceedsIff(client: EmailClient.EmailClient, body: BodyData, entries: seq<Entry>, net: nat -> EmailClient.Response)
    ensures SendAll(client, body, entries, net).failure.None? <==>
              forall i: nat :: i < |Recipients(entries)| ==> Delivered(net(i))
  {
    var f := SendAll(client, body, entries, net);
    if f.failure.Some? {
      var k: nat := |f.sentTo| - 1;
      assert k < |Recipients(entries)| && !Delivered(net(k));
    }
  }

  /** The requests the loop put on the wire, one per recipient sent to. */
  function Requests(client: EmailClient.EmailClient, body: BodyData, sentTo: seq<Emails.SubscriberEmail>): (rs: seq<EmailClient.OutboundRequest>)
    ensures |rs| == |sentTo|
  {
    seq(|sentTo|, i requires 0 <= i < |sentTo| => Issue(client, body, sentTo[i]))
  }

  /** Everything one publish request did: the response, the handler's
      result (the user id on success), the password verifications run, and
      the emails sent. */
  datatype Publication = Publication(
    response: Http.Response,
    result: Result<Uuid, PublishError>,
    verifyCalls: seq<Authentication.VerifyCall>,
    sent: seq<EmailClient.OutboundRequest>)

  function Reject(e: PublishError, calls: seq<Authentication.VerifyCall>, sent: seq<EmailClient.OutboundRequest>): Publication {
    Publication(ErrorResponse(e), Failure(e), calls, sent)
  }

  const JSON_OK: Http.Response := Http.Response(Http.OK, [("content-type", "application/json")])

  /** `publish_newsletter`: parse the `Authorization` header, then carry on
      with what the parse gave (`PublishWith`). */
  function PublishNewsletter(
    headers: Http.HeaderMap, body: BodyData, db: Db,
    h: Authentication.Hasher, validate: Emails.Validator, client: EmailClient.EmailClient,
    usersLoadFails: bool, subscribersLoadFails: bool, net: nat -> EmailClient.Response): (p: Publication)
    ensures p.response == (if p.result.Success? then JSON_OK else ErrorResponse(p.result.error))
    ensures BasicAuth.BasicAuthentication(headers).Failure? ==> p.verifyCalls == [] && p.sent == []
    ensures BasicAuth.BasicAuthentication(headers).Success? ==> |p.verifyCalls| == 1
    ensures p.sent != [] ==> Authentication.ValidateCredentials(h, db.users, BasicAuth.BasicAuthentication(headers).value, usersLoadFails).result.Success?
  {
    PublishWith(BasicAuth.BasicAuthentication(headers), body, db, h, validate, client, usersLoadFails, subscribersLoadFails, net)
  }

  /** The handler once the header parse has given `auth`. Authentication
      comes first: a request without usable credentials runs no
      verification, and one that fails authentication loads and sends
      nothing. */
  function PublishWith(
    auth: Result<BasicAuth.Credentials, BasicAuth.ParseError>, body: BodyData, db: Db,
    h: Authentication.Hasher, validate: Emails.Validator, client: EmailClient.EmailClient,
    usersLoadFails: bool, subscribersLoadFails: bool, net: nat -> EmailClient.Response): (p: Publication)
    ensures p.response == (if p.result.Success? then JSON_OK else ErrorResponse(p.result.error))
    ensures auth.Failure? ==> p.verifyCalls == [] && p.sent == []
    ensures auth.Success? ==> |p.verifyCalls| == 1
    ensures p.sent != [] ==> Authentication.ValidateCredentials(h, db.users, auth.value, usersLoadFails).result.Success?
  {
    match auth
    case Failure(e) => Reject(AuthError(DescribeParseError(e)), [], [])
    case Success(credentials) =>
      var v := Authentication.ValidateCredentials(h, db.users, credentials, usersLoadFails);
      match v.result
      case Failure(err) =>
        if err.InvalidCredentials? then Reject(AuthError(err.cause), v.verifyCalls, [])
        else Reject(UnexpectedError(err.cause), v.verifyCalls, [])
      case Success(userId) =>
        match ConfirmedSubscribers(validate, db.subscriptions, subscribersLoadFails)
        case Failure(cause) => Reject(UnexpectedError(cause), v.verifyCalls, [])
        case Success(entries) =>
          var f := SendAll(client, body, entries, net);
          match f.failure
          case Some(e) => Reject(e, v.verifyCalls, f.requests)
          case None => Publication(JSON_OK, Success(userId), v.verifyCalls, f.requests)
  }

  /** Who the issue is meant for, read directly off the table: the stored
      email of every confirmed row the validator accepts, in storage order.
      Pending rows and rows whose email no longer validates are left out. */
  function RecipientAddresses(validate: Emails.Validator, rows: seq<Subscription>): (addrs: seq<string>)
    ensures |addrs| <= |rows|
  {
    if |rows| == 0 then []
    else (if IsConfirmed(rows[0]) && validate(rows[0].email) then [rows[0].email] else [])
         + RecipientAddresses(validate, rows[1..])
  }

  /** An address is meant to get the issue exactly when some confirmed row
      with a valid email holds it. */
  lemma {:induction false} InRecipientAddresses(validate: Emails.Validator, rows: seq<Subscription>, address: string)
    ensures address in RecipientAddresses(validate, rows) <==>
              exists k :: 0 <= k < |rows| && IsConfirmed(rows[k]) && validate(rows[k].email) && rows[k].email == address
    decreases |rows|
  {
    if |rows| > 0 {
      InRecipientAddresses(validate, rows[1..], address);
      if exists k :: 0 <= k < |rows| && IsConfirmed(rows[k]) && validate(rows[k].email) && rows[k].email == address {
        var k :| 0 <= k < |rows| && IsConfirmed(rows[k]) && validate(rows[k].email) && rows[k].email == address;
        if k > 0 {
          assert rows[1..][k - 1] == rows[k];
        }
      }
      if address in RecipientAddresses(validate, rows[1..]) {
        var k :| 0 <= k < |rows[1..]| && IsConfirmed(rows[1..][k]) && validate(rows[1..][k].email) && rows[1..][k].email == address;
        assert rows[k + 1] == rows[1..][k];
      }
    }
  }

  lemma {:induction false} RecipientAddressesAppend(validate: Emails.Validator, a: seq<Subscription>, b: seq<Subscription>)
    ensures RecipientAddresses(validate, a + b) == RecipientAddresses(validate, a) + RecipientAddresses(validate, b)
    decreases |a|
  {
    if |a| == 0 {
      assert a + b == b;
    } else {
      assert (a + b)[0] == a[0] && (a + b)[1..] == a[1..] + b;
      RecipientAddressesAppend(validate, a[1..], b);
    }
  }

  /** Three confirmed subscribers whose middle stored email no longer
      validates: the issue goes to the first and the third, in that order. */
  lemma InvalidStoredEmailSkipped(validate: Emails.Validator, a: Subscription, b: Subscription, c: Subscription)
    requires IsConfirmed(a) && IsConfirmed(b) && IsConfirmed(c)
    requires validate(a.email) && !validate(b.email) && validate(c.email)
    ensures RecipientAddresses(validate, [a, b, c]) == [a.email, c.email]
  {
    assert RecipientAddresses(validate, [c]) == [c.email] + RecipientAddresses(validate, []);
    assert [b, c][1..] == [c];
    assert RecipientAddresses(validate, [b, c]) == [c.email];
    assert [a, b, c][1..] == [b, c];
  }

  function Addresses(rs: seq<Emails.SubscriberEmail>): (addrs: seq<string>)
    ensures |addrs| == |rs|
  {
    seq(|rs|, i requires 0 <= i < |rs| => Emails.AsRef(rs[i]))
  }

  lemma {:induction false} RecipientsAppend(a: seq<Entry>, b: seq<Entry>)
    ensures Recipients(a + b) == Recipients(a) + Recipients(b)
    decreases |a|
  {
    if |a| == 0 {
      assert a + b == b;
    } else {
      var first := if a[0].Success? then [a[0].value] else [];
      assert (a + b)[0] == a[0] && (a + b)[1..] == a[1..] + b;
      assert Recipients(a + b) == first + Recipients(a[1..] + b);
      RecipientsAppend(a[1..], b);
      assert first + (Recipients(a[1..]) + Recipients(b)) == (first + Recipients(a[1..])) + Recipients(b);
    }
  }

  lemma ParseAllAppend(validate: Emails.Validator, a: seq<Subscription>, b: seq<Subscription>)
    ensures ParseAll(validate, a + b) == ParseAll(validate, a) + ParseAll(validate, b)
  {
  }

  lemma AddressesAppend(a: seq<Emails.SubscriberEmail>, b: seq<Emails.SubscriberEmail>)
    ensures Addresses(a + b) == Addresses(a) + Addresses(b)
  {
  }

  lemma ConfirmedRowsCons(rows: seq<Subscription>)
    requires |rows| > 0
    ensures ConfirmedRows(rows) == (if IsConfirmed(rows[0]) then [rows[0]] else []) + ConfirmedRows(rows[1..])
  {
    assert rows == [rows[0]] + rows[1..];
    Seqs.FilterAppend([rows[0]], rows[1..], IsConfirmed);
  }

  lemma HeadRecipient(validate: Emails.Validator, row: Subscription)
    ensures Addresses(Recipients(ParseAll(validate, if IsConfirmed(row) then [row] else [])))
            == (if IsConfirmed(row) && validate(row.email) then [row.email] else [])
  {
    if IsConfirmed(row) {
      var es := ParseAll(validate, [row]);
      assert es == [Emails.Parse(validate, row.email)];
      assert Recipients(es) == (if es[0].Success? then [es[0].value] else []) + Recipients(es[1..]);
    }
  }

  /** The loop's recipients are exactly the intended ones: the confirmed
      rows whose email re-parses, in storage order. */
  lemma {:induction false} RecipientsAreValidConfirmed(validate: Emails.Validator, rows: seq<Subscription>)
    ensures Addresses(Recipients(ParseAll(validate, ConfirmedRows(rows)))) == RecipientAddresses(validate, rows)
    decreases |rows|
  {
    if |rows| > 0 {
      var head := if IsConfirmed(rows[0]) then [rows[0]] else [];
      var tail := ConfirmedRows(rows[1..]);
      ConfirmedRowsCons(rows);
      ParseAllAppend(validate, head, tail);
      RecipientsAppend(ParseAll(validate, head), ParseAll(validate, tail));
      AddressesAppend(Recipients(ParseAll(validate, head)), Recipients(ParseAll(validate, tail)));
      HeadRecipient(validate, rows[0]);
      RecipientsAreValidConfirmed(validate, rows[1..]);
    }
  }

  /** Authentication comes first: when the `Authorization` header is
      missing or malformed (`auth` is a parse error) the request gets the
      401 challenge, and no password is verified, nothing is loaded and
      nothing is sent. */
  lemma MalformedCredentialsRejectedFirst(
    auth: Result<BasicAuth.Credentials, BasicAuth.ParseError>, body: BodyData, db: Db,
    h: Authentication.Hasher, validate: Emails.Validator, client: EmailClient.EmailClient,
    usersLoadFails: bool, subscribersLoadFails: bool, net: nat -> EmailClient.Response)
    requires auth.Failure?
    ensures var p := PublishWith(auth, body, db, h, validate, client, usersLoadFails, subscribersLoadFails, net);
            p.response == Http.Response(Http.UNAUTHORIZED, [(WWW_AUTHENTICATE, PUBLISH_CHALLENGE)])
            && p.result.Failure? && p.result.error.AuthError?
            && p.verifyCalls == [] && p.sent == []
  {
  }

  /** Credentials that do not validate end the request before the
      subscribers are loaded: invalid credentials give the 401 challenge, an
      unexpected validation error gives 500. */
  lemma RejectedCredentialsSendNothing(
    auth: Result<BasicAuth.Credentials, BasicAuth.ParseError>, body: BodyData, db: Db,
    h: Authentication.Hasher, validate: Emails.Validator, client: EmailClient.EmailClient,
    usersLoadFails: bool, subscribersLoadFails: bool, net: nat -> EmailClient.Response)
    requires auth.Success?
    requires Authentication.ValidateCredentials(h, db.users, auth.value, usersLoadFails).result.Failure?
    ensures var p := PublishWith(auth, body, db, h, validate, client, usersLoadFails, subscribersLoadFails, net);
            var err := Authentication.ValidateCredentials(h, db.users, auth.value, usersLoadFails).result.error;
            p.sent == [] && |p.verifyCalls| == 1
            && (err.InvalidCredentials? ==> p.response == Http.Response(Http.UNAUTHORIZED, [(WWW_AUTHENTICATE, PUBLISH_CHALLENGE)]))
            && (err.UnexpectedError? ==> p.response == Http.Response(Http.INTERNAL_SERVER_ERROR, []))
  {
  }

  /** An unknown user and a wrong password cannot be told apart from the
      response: every rejection as invalid credentials, whatever its cause,
      gets the same 401 challenge. */
  lemma InvalidCredentialsLookAlike(
    auth1: Result<BasicAuth.Credentials, BasicAuth.ParseError>, auth2: Result<BasicAuth.Credentials, BasicAuth.ParseError>, body: BodyData, db: Db,
    h: Authentication.Hasher, validate: Emails.Validator, client: EmailClient.EmailClient,
    usersLoadFails: bool, subscribersLoadFails: bool, net: nat -> EmailClient.Response)
    requires auth1.Success? && auth2.Success?
    requires var r := Authentication.ValidateCredentials(h, db.users, auth1.value, usersLoadFails).result;
             r.Failure? && r.error.InvalidCredentials?
    requires var r := Authentication.ValidateCredentials(h, db.users, auth2.value, usersLoadFails).result;
             r.Failure? && r.error.InvalidCredentials?
    ensures PublishWith(auth1, body, db, h, validate, client, usersLoadFails, subscribersLoadFails, net).response
            == PublishWith(auth2, body, db, h, validate, client, usersLoadFails, subscribersLoadFails, net).response
  {
  }

  /** Once authenticated, a failure to load the subscribers is a 500 and
      nothing is sent. */
  lemma SubscriberLoadFailureIsUnexpected(
    auth: Result<BasicAuth.Credentials, BasicAuth.ParseError>, body: BodyData, db: Db,
    h: Authentication.Hasher, validate: Emails.Validator, client: EmailClient.EmailClient,
    usersLoadFails: bool, net: nat -> EmailClient.Response)
    requires auth.Success?
    requires Authentication.ValidateCredentials(h, db.users, auth.value, usersLoadFails).result.Success?
    ensures var p := PublishWith(auth, body, db, h, validate, client, usersLoadFails, true, net);
            p.response == Http.Response(Http.INTERNAL_SERVER_ERROR, []) && p.sent == []
  {
  }

  /** Past authentication and the subscriber query, the publish outcome is
      the loop's: 200 when it finishes, and the 500 of the error that stopped
      it otherwise. */
  lemma PublishIsFanOut(
    auth: Result<BasicAuth.Credentials, BasicAuth.ParseError>, body: BodyData, db: Db,
    h: Authentication.Hasher, validate: Emails.Validator, client: EmailClient.EmailClient,
    usersLoadFails: bool, net: nat -> EmailClient.Response)
    requires auth.Success?
    requires Authentication.ValidateCredentials(h, db.users, auth.value, usersLoadFails).result.Success?
    ensures var p := PublishWith(auth, body, db, h, validate, client, usersLoadFails, false, net);
            var f := SendAll(client, body, ParseAll(validate, ConfirmedRows(db.subscriptions)), net);
            && p.sent == Requests(client, body, f.sentTo)
            && (p.response.status == Http.OK <==> f.failure.None?)
            && (f.failure.Some? ==> p.result == Failure(f.failure.value)
                                    && p.response == Http.Response(Http.INTERNAL_SERVER_ERROR, []))
  {
  }

  /** Requests built for recipients whose addresses are `to`'s, in order. */
  lemma RequestsCarryIssue(client: EmailClient.EmailClient, body: BodyData, sentTo: seq<Emails.SubscriberEmail>, to: seq<string>)
    requires |sentTo| <= |to| && forall i :: 0 <= i < |sentTo| ==> Emails.AsRef(sentTo[i]) == to[i]
    ensures var sent := Requests(client, body, sentTo);
            forall i :: 0 <= i < |sent| ==>
              EmailClient.Member(sent[i].body, "To") == Some(to[i])
              && EmailClient.Member(sent[i].body, "Subject") == Some(body.title)
              && EmailClient.Member(sent[i].body, "HtmlBody") == Some(body.html)
              && EmailClient.Member(sent[i].body, "TextBody") == Some(body.text)
  {
  }

  /** An authenticated publish with the subscribers loaded answers 200
      exactly when every intended recipient's send succeeded, and 500
      otherwise; the requests it sent go to the intended recipients in order,
      carry the issue's title, html and text, and on success cover every
      recipient. */
  lemma {:induction false} PublishSucceedsIff(
    auth: Result<BasicAuth.Credentials, BasicAuth.ParseError>, body: BodyData, db: Db,
    h: Authentication.Hasher, validate: Emails.Validator, client: EmailClient.EmailClient,
    usersLoadFails: bool, net: nat -> EmailClient.Response)
    requires auth.Success?
    requires Authentication.ValidateCredentials(h, db.users, auth.value, usersLoadFails).result.Success?
    ensures var p := PublishWith(auth, body, db, h, validate, client, usersLoadFails, false, net);
            var intended := RecipientAddresses(validate, db.subscriptions);
            && (p.response.status == Http.OK <==> forall i: nat :: i < |intended| ==> Delivered(net(i)))
            && |p.sent| <= |intended|
            && (forall i :: 0 <= i < |p.sent| ==>
                  EmailClient.Member(p.sent[i].body, "To") == Some(intended[i])
                  && EmailClient.Member(p.sent[i].body, "Subject") == Some(body.title)
                  && EmailClient.Member(p.sent[i].body, "HtmlBody") == Some(body.html)
                  && EmailClient.Member(p.sent[i].body, "TextBody") == Some(body.text))
            && (p.response.status == Http.OK ==> |p.sent| == |intended|)
            && (p.response.status != Http.OK ==> p.response == Http.Response(Http.INTERNAL_SERVER_ERROR, []))
  {
    var f := SendAll(client, body, ParseAll(validate, ConfirmedRows(db.subscriptions)), net);
    PublishIsFanOut(auth, body, db, h, validate, client, usersLoadFails, net);
    LoopReachesIntended(client, body, validate, db.subscriptions, net);
    RequestsCarryIssue(client, body, f.sentTo, RecipientAddresses(validate, db.subscriptions));
  }

  /** The loop over the stored subscribers sends to the intended recipients
      in order, and finishes cleanly exactly when each of their sends is
      delivered, having then sent to all of them. */
  lemma LoopReachesIntended(client: EmailClient.EmailClient, body: BodyData, validate: Emails.Validator,
                            rows: seq<Subscription>, net: nat -> EmailClient.Response)
    ensures var f := SendAll(client, body, ParseAll(validate, ConfirmedRows(rows)), net);
            var intended := RecipientAddresses(validate, rows);
            && |f.sentTo| <= |intended|
            && (forall i :: 0 <= i < |f.sentTo| ==> Emails.AsRef(f.sentTo[i]) == intended[i])
            && (f.failure.None? <==> forall i: nat :: i < |intended| ==> Delivered(net(i)))
            && (f.failure.None? ==> |f.sentTo| == |intended|)
  {
    var entries := ParseAll(validate, ConfirmedRows(rows));
    var f := SendAll(client, body, entries, net);
    var rs := Recipients(entries);
    var intended := RecipientAddresses(validate, rows);
    RecipientsAreValidConfirmed(validate, rows);
    SendAllSucceedsIff(client, body, entries, net);
    assert |intended| == |rs|;
    forall i | 0 <= i < |f.sentTo|
      ensures Emails.AsRef(f.sentTo[i]) == intended[i]
    {
      assert f.sentTo[i] == rs[i];
      assert Addresses(rs)[i] == Emails.AsRef(rs[i]);
    }
  }
}
