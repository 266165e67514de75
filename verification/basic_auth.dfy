/** Extraction of HTTP Basic credentials from a request's headers, the
    "Basic" scheme of section 2 of RFC 7617: the header value is the scheme
    name, one space, and the base64 encoding of the UTF-8 encoding of
    user-id ":" password. */
module BasicAuth {
  import opened Wrappers
  import opened Bytes
  import Seqs
  import Http
  import Utf8
  import Base64

  datatype Credentials = Credentials(username: string, password: string)

  /** Why a request carries no usable credentials; one variant per
      `context(...)`/`anyhow!` message that can actually be raised. */
  datatype ParseError =
    | MissingHeader    // "The 'Authorization' header was missing"
    | NotAString       // "... was not a valid UTF8 string."
    | NotBasicScheme   // "The authorization scheme was not 'Basic'."
    | InvalidBase64    // "Failed to base64-decode 'Basic' credentials."
    | InvalidUtf8      // "The decoded credential string is not valid UTF8."
    | MissingPassword  // "A password must be provided in 'Basic' auth."

  const SCHEME_PREFIX: string := "Basic "
  const SEPARATOR: char := ':'

  /** `str::strip_prefix`: the rest of `s` after `prefix`, compared exactly. */
  function StripPrefix(s: string, prefix: string): (r: Option<string>)
    ensures r.Some? <==> prefix <= s
    ensures r.Some? ==> s == prefix + r.value
  {
    if prefix <= s then Some(s[|prefix|..]) else None
  }

  /** `splitn(2, sep)` followed by two `next()` calls: the text before the
      first `sep` and everything after it, or `None` when there is no `sep`
      (the second `next()` finds nothing; the first never fails). */
  function SplitAtFirst(s: string, sep: char): (r: Option<(string, string)>)
    ensures r.None? <==> sep !in s
    ensures r.Some? ==> s == r.value.0 + [sep] + r.value.1 && sep !in r.value.0
  {
    if |s| == 0 then None
    else if s[0] == sep then Some(([], s[1..]))
    else match SplitAtFirst(s[1..], sep)
      case None => None
      case Some((a, b)) => Some(([s[0]] + a, b))
  }

  /** The split point is the first separator: joining any separator-free
      head to any tail splits back into exactly those two parts. */
  lemma {:induction false} SplitAtFirstJoin(a: string, b: string, sep: char)
    requires sep !in a
    ensures SplitAtFirst(a + [sep] + b, sep) == Some((a, b))
    decreases |a|
  {
    var s := a + [sep] + b;
    if |a| == 0 {
      assert s == [sep] + b;
      assert s[1..] == b;
    } else {
      assert s[0] == a[0];
      assert s[1..] == a[1..] + [sep] + b;
      SplitAtFirstJoin(a[1..], b, sep);
      assert [a[0]] + a[1..] == a;
    }
  }

  /** `basic_authentication` (src/routes/newsletter.rs): header lookup,
      `to_str`, `strip_prefix("Basic ")`, base64 decoding with optional
      padding, `String::from_utf8` and the split at the first colon, each
      failing with its own error. */
  function BasicAuthentication(headers: Http.HeaderMap): (r: Result<Credentials, ParseError>)
    ensures r == Failure(MissingHeader) <==> Http.Get(headers, Http.AUTHORIZATION).None?
    ensures r == Failure(NotAString) <==>
              Http.Get(headers, Http.AUTHORIZATION).Some? && Http.ToStr(Http.Get(headers, Http.AUTHORIZATION).value).None?
    ensures r.Success? ==> SEPARATOR !in r.value.username
  {
    match Http.Get(headers, Http.AUTHORIZATION)
    case None => Failure(MissingHeader)
    case Some(raw) =>
      match Http.ToStr(raw)
      case None => Failure(NotAString)
      case Some(value) =>
        match StripPrefix(value, SCHEME_PREFIX)
        case None => Failure(NotBasicScheme)
        case Some(segment) =>
          match Base64.DecodeIndifferent(segment)
          case None => Failure(InvalidBase64)
          case Some(decoded) =>
            match Utf8.Decode(decoded)
            case None => Failure(InvalidUtf8)
            case Some(text) =>
              match SplitAtFirst(text, SEPARATOR)
              case None => Failure(MissingPassword)
              case Some((username, password)) => Success(Credentials(username, password))
  }

  /** The base64 part of the header a client sends for `c`. */
  function Segment(c: Credentials): (seg: string)
    ensures forall i :: 0 <= i < |seg| ==> Base64.IsAlphabetChar(seg[i]) || seg[i] == Base64.PAD
  {
    Base64.Encode(Utf8.Encode(c.username + [SEPARATOR] + c.password))
  }

  /** The header value a client sends for `c` (section 2 of RFC 7617). */
  function EncodeHeader(c: Credentials): (v: seq<byte>)
    ensures forall i :: 0 <= i < |v| ==> Http.IsVisibleAscii(v[i]) && v[i] != 9
  {
    var text := SCHEME_PREFIX + Segment(c);
    assert forall i :: 0 <= i < |text| ==> 32 <= (text[i] as int) < 127;
    Http.AsciiBytes(text)
  }

  /** The header values that carry `c`: its Basic encoding with none, some or
      all of the base64 padding left off. */
  predicate IsHeaderFor(v: seq<byte>, c: Credentials) {
    Seqs.DropsTrailing(EncodeHeader(c), v, Base64.PAD as int)
  }

  /** A header that carries `c` is the scheme followed by `c`'s segment with
      some of its padding left off. */
  lemma HeaderSegment(v: seq<byte>, c: Credentials)
    requires IsHeaderFor(v, c)
    ensures |v| >= |SCHEME_PREFIX|
    ensures var seg := Segment(c)[..|v| - |SCHEME_PREFIX|];
            Seqs.DropsTrailing(Segment(c), seg, Base64.PAD) && v == Http.AsciiBytes(SCHEME_PREFIX + seg)
  {
    var e := EncodeHeader(c);
    var full := Segment(c);
    assert e[5] == ' ' as int;
    var seg := full[..|v| - |SCHEME_PREFIX|];
    forall i | |seg| <= i < |full|
      ensures full[i] == Base64.PAD
    {
      assert e[i + |SCHEME_PREFIX|] == full[i] as int;
    }
    var w := Http.AsciiBytes(SCHEME_PREFIX + seg);
    forall j | 0 <= j < |v|
      ensures v[j] == w[j]
    {
      assert v[j] == e[j];
    }
  }

  /** The scheme followed by `c`'s segment, some of its padding left off, is
      a printable header that carries `c`. */
  lemma SegmentHeader(seg: string, c: Credentials)
    requires Seqs.DropsTrailing(Segment(c), seg, Base64.PAD)
    ensures forall i :: 0 <= i < |SCHEME_PREFIX + seg| ==> 32 <= ((SCHEME_PREFIX + seg)[i] as int) < 127
    ensures IsHeaderFor(Http.AsciiBytes(SCHEME_PREFIX + seg), c)
  {
    var text := SCHEME_PREFIX + seg;
    assert forall i :: 0 <= i < |text| ==> 32 <= (text[i] as int) < 127;
    var v := Http.AsciiBytes(text);
    var e := EncodeHeader(c);
    forall j | 0 <= j < |v|
      ensures v[j] == e[j]
    {
    }
  }

  /** A header carrying the Basic encoding of `text`, padding optional, gets
      through every decoding step, so the outcome is decided by the split
      alone. */
  lemma ParseOfEncodedText(headers: Http.HeaderMap, text: string, segment: string)
    requires Seqs.DropsTrailing(Base64.Encode(Utf8.Encode(text)), segment, Base64.PAD)
    requires forall i :: 0 <= i < |segment| ==> Base64.IsAlphabetChar(segment[i]) || segment[i] == Base64.PAD
    requires Http.Get(headers, Http.AUTHORIZATION) == Some(Http.AsciiBytes(SCHEME_PREFIX + segment))
    ensures BasicAuthentication(headers) ==
              match SplitAtFirst(text, SEPARATOR)
              case None => Failure(MissingPassword)
              case Some((username, password)) => Success(Credentials(username, password))
  {
    var value := SCHEME_PREFIX + segment;
    assert forall i :: 0 <= i < |value| ==> 32 <= (value[i] as int) < 127;
    Http.ToStrAsciiBytes(value);
    assert StripPrefix(value, SCHEME_PREFIX) == Some(segment);
    Base64.DecodeIndifferentIff(segment, Utf8.Encode(text));
    Utf8.DecodeEncode(text);
  }

  /** Round trip: a request whose first Authorization header carries a
      colon-free user name and any password, padding optional, yields exactly
      that user name and password; further colons stay in the password. */
  lemma ParseEncodeHeader(headers: Http.HeaderMap, c: Credentials)
    requires SEPARATOR !in c.username
    requires Http.Get(headers, Http.AUTHORIZATION).Some? && IsHeaderFor(Http.Get(headers, Http.AUTHORIZATION).value, c)
    ensures BasicAuthentication(headers) == Success(c)
  {
    var v := Http.Get(headers, Http.AUTHORIZATION).value;
    HeaderSegment(v, c);
    ParseOfEncodedText(headers, c.username + [SEPARATOR] + c.password, Segment(c)[..|v| - |SCHEME_PREFIX|]);
    SplitAtFirstJoin(c.username, c.password, SEPARATOR);
  }

  /** The converse: credentials are only ever extracted from a header that
      carries them, because apart from optional padding every decoding step
      accepts canonical input only. */
  lemma EncodeHeaderOfParse(headers: Http.HeaderMap)
    requires BasicAuthentication(headers).Success?
    ensures var c := BasicAuthentication(headers).value;
            && SEPARATOR !in c.username && Http.Get(headers, Http.AUTHORIZATION).Some?
            && IsHeaderFor(Http.Get(headers, Http.AUTHORIZATION).value, c)
  {
    var raw := Http.Get(headers, Http.AUTHORIZATION).value;
    var value := Http.ToStr(raw).value;
    var segment := StripPrefix(value, SCHEME_PREFIX).value;
    var decoded := Base64.DecodeIndifferent(segment).value;
    var text := Utf8.Decode(decoded).value;
    var c := BasicAuthentication(headers).value;
    Http.AsciiBytesToStr(raw);
    Base64.DecodeIndifferentSound(segment, decoded);
    Utf8.EncodeDecode(decoded);
    assert text == c.username + [SEPARATOR] + c.password;
    SegmentHeader(segment, c);
  }

  /** Both directions together: parsing succeeds with `c` exactly when the
      Authorization header carries `c` and the user name holds no colon. */
  lemma BasicAuthenticationIff(headers: Http.HeaderMap, c: Credentials)
    ensures BasicAuthentication(headers) == Success(c) <==>
              && SEPARATOR !in c.username && Http.Get(headers, Http.AUTHORIZATION).Some?
              && IsHeaderFor(Http.Get(headers, Http.AUTHORIZATION).value, c)
  {
    if BasicAuthentication(headers) == Success(c) {
      EncodeHeaderOfParse(headers);
    }
    if SEPARATOR !in c.username && Http.Get(headers, Http.AUTHORIZATION).Some?
       && IsHeaderFor(Http.Get(headers, Http.AUTHORIZATION).value, c) {
      ParseEncodeHeader(headers, c);
    }
  }

  /** The canonical header carries its credentials. */
  lemma EncodeHeaderIsHeaderFor(c: Credentials)
    ensures IsHeaderFor(EncodeHeader(c), c)
  {
    assert EncodeHeader(c)[..|EncodeHeader(c)|] == EncodeHeader(c);
  }

  lemma ExampleOctets()
    ensures Utf8.Encode("a:bc") == [97, 58, 98, 99]
  {
    assert "a:bc"[1..] == ":bc" && ":bc"[1..] == "bc" && "bc"[1..] == "c" && "c"[1..] == [];
  }

  lemma ExampleTriple()
    ensures Base64.EncodeTriple(97, 58, 98) == "YTpi"
  {
    assert 97 / 4 == 24 && (97 % 4) * 16 + 58 / 16 == 19 && (58 % 16) * 4 + 98 / 64 == 41 && 98 % 64 == 34;
    assert Base64.CharOf(24) == 'Y' && Base64.CharOf(19) == 'T' && Base64.CharOf(41) == 'p' && Base64.CharOf(34) == 'i';
  }

  lemma ExampleFinal()
    ensures Base64.Encode([99]) == "Yw=="
  {
    assert Base64.CharOf(24) == 'Y' && Base64.CharOf(48) == 'w';
  }

  lemma ExampleSegment()
    ensures Base64.Encode([97, 58, 98, 99]) == "YTpiYw=="
  {
    var bs: seq<byte> := [97, 58, 98, 99];
    assert bs[3..] == [99];
    ExampleTriple();
    ExampleFinal();
    assert Base64.Encode(bs) == Base64.EncodeTriple(97, 58, 98) + Base64.Encode([99]);
  }

  lemma ExampleHeader()
    ensures IsHeaderFor(Http.AsciiBytes("Basic YTpiYw"), Credentials("a", "bc"))
  {
    var c := Credentials("a", "bc");
    assert c.username + [SEPARATOR] + c.password == "a:bc";
    ExampleOctets();
    ExampleSegment();
    assert Segment(c)[..6] == "YTpiYw";
    SegmentHeader("YTpiYw", c);
    assert SCHEME_PREFIX + "YTpiYw" == "Basic YTpiYw";
  }

  /** Padding is optional: "Basic YTpiYw", the encoding of "a:bc" without
      its final "==", yields user "a" and password "bc". */
  lemma UnpaddedSegmentAccepted(headers: Http.HeaderMap)
    requires Http.Get(headers, Http.AUTHORIZATION) == Some(Http.AsciiBytes("Basic YTpiYw"))
    ensures BasicAuthentication(headers) == Success(Credentials("a", "bc"))
  {
    ExampleHeader();
    ParseEncodeHeader(headers, Credentials("a", "bc"));
  }

  /** The scheme name is matched exactly: a lower-case "basic " is refused. */
  lemma SchemeIsCaseSensitive(headers: Http.HeaderMap, rest: string)
    requires forall i :: 0 <= i < |rest| ==> 32 <= (rest[i] as int) < 127
    requires Http.Get(headers, Http.AUTHORIZATION) == Some(Http.AsciiBytes("basic " + rest))
    ensures BasicAuthentication(headers) == Failure(NotBasicScheme)
  {
    var value := "basic " + rest;
    Http.ToStrAsciiBytes(value);
    assert value[0] != SCHEME_PREFIX[0];
  }

  /** Decoded text without a colon has no password part. */
  lemma NoColonIsMissingPassword(headers: Http.HeaderMap, text: string)
    requires SEPARATOR !in text
    requires Http.Get(headers, Http.AUTHORIZATION)
             == Some(Http.AsciiBytes(SCHEME_PREFIX + Base64.Encode(Utf8.Encode(text))))
    ensures BasicAuthentication(headers) == Failure(MissingPassword)
  {
    var seg := Base64.Encode(Utf8.Encode(text));
    assert seg[..|seg|] == seg;
    ParseOfEncodedText(headers, text, seg);
  }

  /** A segment that is not base64 (here a character outside the alphabet). */
  lemma NonAlphabetIsInvalidBase64(headers: Http.HeaderMap)
    requires Http.Get(headers, Http.AUTHORIZATION) == Some(Http.AsciiBytes(SCHEME_PREFIX + "!!!!"))
    ensures BasicAuthentication(headers) == Failure(InvalidBase64)
  {
    var value := SCHEME_PREFIX + "!!!!";
    Http.ToStrAsciiBytes(value);
    assert StripPrefix(value, SCHEME_PREFIX) == Some("!!!!");
  }

  /** Well-formed base64 of octets that are not UTF-8 (a lone 0xFF). */
  lemma NonUtf8IsInvalidUtf8(headers: Http.HeaderMap)
    requires Http.Get(headers, Http.AUTHORIZATION) == Some(Http.AsciiBytes(SCHEME_PREFIX + Base64.Encode([0xFF])))
    ensures BasicAuthentication(headers) == Failure(InvalidUtf8)
  {
    var b64 := Base64.Encode([0xFF]);
    var value := SCHEME_PREFIX + b64;
    Http.ToStrAsciiBytes(value);
    assert StripPrefix(value, SCHEME_PREFIX) == Some(b64);
    Base64.DecodeEncode([0xFF]);
  }

  /** The user-name step cannot fail: an empty user name is accepted. */
  lemma EmptyUsernameAccepted(headers: Http.HeaderMap, password: string)
    requires Http.Get(headers, Http.AUTHORIZATION) == Some(EncodeHeader(Credentials("", password)))
    ensures BasicAuthentication(headers) == Success(Credentials("", password))
  {
    EncodeHeaderIsHeaderFor(Credentials("", password));
    ParseEncodeHeader(headers, Credentials("", password));
  }
}
