/** The pure part of `EmailClient::send_email` (src/email_client.rs): the
    request it builds and how the response it gets is classified. The HTTP
    exchange itself is the caller's `Response` value. */
module EmailClient {
  import opened Wrappers
  import Seqs
  import Emails

  datatype EmailClient = EmailClient(baseUrl: string, sender: Emails.SubscriberEmail, authorizationToken: string)

  /** A JSON object whose members all hold strings, in serialisation order. */
  type JsonObject = seq<(string, string)>

  /** A POST as reqwest sends it. Header names are held lower-case, as the
      `http` crate normalises them. */
  datatype OutboundRequest = OutboundRequest(verb: string, url: string, headers: seq<(string, string)>, body: JsonObject)

  const EMAIL_PATH: string := "/email"
  const TOKEN_HEADER: string := "x-postmark-server-token"
  const CONTENT_TYPE_HEADER: string := "content-type"
  const JSON_MEDIA_TYPE: string := "application/json"

  /** The fields of `SendEmailRequest`, renamed to PascalCase by serde. */
  const REQUEST_KEYS: seq<string> := ["From", "To", "Subject", "HtmlBody", "TextBody"]

  function Keys(obj: JsonObject): (ks: seq<string>)
    ensures |ks| == |obj| && forall i :: 0 <= i < |obj| ==> ks[i] == obj[i].0
  {
    seq(|obj|, i requires 0 <= i < |obj| => obj[i].0)
  }

  /** The value a JSON reader finds under `key` (the first member with it). */
  function Member(obj: seq<(string, string)>, key: string): Option<string> {
    match Seqs.FirstIndex(obj, (m: (string, string)) => m.0 == key)
    case None => None
    case Some(i) => Some(obj[i].1)
  }

  /** In an object with distinct keys every member is found under its key. */
  lemma MemberAt(obj: seq<(string, string)>, i: nat)
    requires i < |obj| && forall j :: 0 <= j < |obj| && j != i ==> obj[j].0 != obj[i].0
    ensures Member(obj, obj[i].0) == Some(obj[i].1)
  {
    var k := Seqs.FirstIndex(obj, (m: (string, string)) => m.0 == obj[i].0);
    assert k.Some?;
  }

  /** The body `send_email` serialises, with the members in declaration
      order. */
  function RequestBody(from: string, to: string, subject: string, html: string, text: string): JsonObject {
    [("From", from), ("To", to), ("Subject", subject), ("HtmlBody", html), ("TextBody", text)]
  }

  lemma RequestBodyMembers(from: string, to: string, subject: string, html: string, text: string)
    ensures var body := RequestBody(from, to, subject, html, text);
            && Keys(body) == REQUEST_KEYS
            && Member(body, "From") == Some(from) && Member(body, "To") == Some(to)
            && Member(body, "Subject") == Some(subject) && Member(body, "HtmlBody") == Some(html)
            && Member(body, "TextBody") == Some(text)
  {
    var body := RequestBody(from, to, subject, html, text);
    MemberAt(body, 0); MemberAt(body, 1); MemberAt(body, 2); MemberAt(body, 3); MemberAt(body, 4);
  }

  function RequestHeaders(token: string): seq<(string, string)> {
    [(TOKEN_HEADER, token), (CONTENT_TYPE_HEADER, JSON_MEDIA_TYPE)]
  }

  lemma RequestHeaderMembers(token: string)
    ensures Member(RequestHeaders(token), TOKEN_HEADER) == Some(token)
    ensures Member(RequestHeaders(token), CONTENT_TYPE_HEADER) == Some(JSON_MEDIA_TYPE)
  {
    MemberAt(RequestHeaders(token), 0); MemberAt(RequestHeaders(token), 1);
  }

  /** The request `send_email` builds: POST to the base URL with "/email"
      appended verbatim, the server token header, a JSON content type, and a
      body of exactly the five members, read back unchanged. */
  function BuildRequest(client: EmailClient, recipient: Emails.SubscriberEmail,
                        subject: string, html: string, text: string): (r: OutboundRequest)
    ensures r.verb == "POST"
    ensures |r.url| >= |client.baseUrl| && r.url[..|client.baseUrl|] == client.baseUrl
    ensures r.url[|client.baseUrl|..] == EMAIL_PATH
    ensures Member(r.headers, TOKEN_HEADER) == Some(client.authorizationToken)
    ensures Member(r.headers, CONTENT_TYPE_HEADER) == Some(JSON_MEDIA_TYPE)
    ensures Keys(r.body) == REQUEST_KEYS
    ensures Member(r.body, "From") == Some(Emails.AsRef(client.sender))
    ensures Member(r.body, "To") == Some(Emails.AsRef(recipient))
    ensures Member(r.body, "Subject") == Some(subject)
    ensures Member(r.body, "HtmlBody") == Some(html)
    ensures Member(r.body, "TextBody") == Some(text)
  {
    RequestBodyMembers(Emails.AsRef(client.sender), Emails.AsRef(recipient), subject, html, text);
    RequestHeaderMembers(client.authorizationToken);
    OutboundRequest("POST", client.baseUrl + EMAIL_PATH, RequestHeaders(client.authorizationToken),
                    RequestBody(Emails.AsRef(client.sender), Emails.AsRef(recipient), subject, html, text))
  }

  /** What came back for one request: a final status code, or a transport
      failure (connection error, or the client timeout elapsing). */
  datatype Response = Status(code: int) | TransportFailure

  datatype SendError = ErrorStatus(code: int) | Transport

  predicate IsErrorStatus(code: int) {
    400 <= code < 600
  }

  /** `.send().await?.error_for_status()?`: a transport failure, a client
      error (4xx) or a server error (5xx) is an error; any other status
      succeeds. */
  function Classify(resp: Response): (r: Result<(), SendError>)
    ensures r.Success? <==> resp.Status? && !IsErrorStatus(resp.code)
    ensures r.Failure? && resp.Status? ==> r.error == ErrorStatus(resp.code)
  {
    match resp
    case TransportFailure => Failure(Transport)
    case Status(code) => if IsErrorStatus(code) then Failure(ErrorStatus(code)) else Success(())
  }

  /** The two behaviours the client's tests pin down: 2xx succeeds, and a
      500 or a timeout fails. */
  lemma ClassifyExamples(code: int)
    ensures 200 <= code < 300 ==> Classify(Status(code)).Success?
    ensures Classify(Status(500)) == Failure(ErrorStatus(500))
    ensures Classify(TransportFailure).Failure?
  {
  }

  /** One call of `send_email`: the request put on the wire and its outcome. */
  datatype Sent = Sent(request: OutboundRequest, outcome: Result<(), SendError>)

  /** `send_email`: POST the five members to the base URL with "/email"
      appended, then classify the answer. */
  function SendEmail(client: EmailClient, recipient: Emails.SubscriberEmail,
                     subject: string, html: string, text: string, resp: Response): (s: Sent)
    ensures s.request.verb == "POST" && s.request.url == client.baseUrl + EMAIL_PATH
    ensures Member(s.request.headers, TOKEN_HEADER) == Some(client.authorizationToken)
    ensures Member(s.request.headers, CONTENT_TYPE_HEADER) == Some(JSON_MEDIA_TYPE)
    ensures Keys(s.request.body) == REQUEST_KEYS
    ensures Member(s.request.body, "From") == Some(Emails.AsRef(client.sender))
    ensures Member(s.request.body, "To") == Some(Emails.AsRef(recipient))
    ensures Member(s.request.body, "Subject") == Some(subject)
    ensures Member(s.request.body, "HtmlBody") == Some(html)
    ensures Member(s.request.body, "TextBody") == Some(text)
    ensures s.outcome.Success? <==> resp.Status? && !IsErrorStatus(resp.code)
    ensures s.outcome.Failure? ==> s.outcome.error == (if resp.Status? then ErrorStatus(resp.code) else Transport)
  {
    Sent(BuildRequest(client, recipient, subject, html, text), Classify(resp))
  }
}
