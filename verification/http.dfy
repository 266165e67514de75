/** The slice of the HTTP types the handlers touch: request header maps,
    header values as octets, and responses. */
module Http {
  import opened Wrappers
  import opened Bytes
  import Seqs

  /** A header name is stored in its normalised lower-case form, as the
      `http` crate's `HeaderName` does, so looking up "Authorization" means
      looking up "authorization". */
  datatype Header = Header(name: string, value: seq<byte>)

  type HeaderMap = seq<Header>

  const AUTHORIZATION: string := "authorization"

  /** `HeaderMap::get`: the first value stored under `name`. */
  function Get(headers: HeaderMap, name: string): (r: Option<seq<byte>>)
    ensures r.Some? <==> exists i :: 0 <= i < |headers| && headers[i].name == name
    ensures r.Some? ==> exists i :: 0 <= i < |headers| && headers[i].name == name && headers[i].value == r.value
                          && forall j :: 0 <= j < i ==> headers[j].name != name
  {
    match Seqs.FirstIndex(headers, (h: Header) => h.name == name)
    case None => None
    case Some(i) => Some(headers[i].value)
  }

  /** The octets `HeaderValue::to_str` accepts: visible ASCII and tab. */
  predicate IsVisibleAscii(b: byte) {
    32 <= b < 127 || b == 9
  }

  /** `HeaderValue::to_str`: the value as text when every octet is visible
      ASCII, one character per octet. */
  function ToStr(v: seq<byte>): (r: Option<string>)
    ensures r.Some? <==> forall i :: 0 <= i < |v| ==> IsVisibleAscii(v[i])
    ensures r.Some? ==> |r.value| == |v| && forall i :: 0 <= i < |v| ==> r.value[i] as int == v[i]
  {
    if forall i :: 0 <= i < |v| ==> IsVisibleAscii(v[i])
    then Some(seq(|v|, i requires 0 <= i < |v| => v[i] as char))
    else None
  }

  /** The octets of an ASCII text, as a client writes them into a header. */
  function AsciiBytes(s: string): (v: seq<byte>)
    requires forall i :: 0 <= i < |s| ==> (s[i] as int) < 256
    ensures |v| == |s| && forall i :: 0 <= i < |s| ==> v[i] == s[i] as int
  {
    seq(|s|, i requires 0 <= i < |s| => s[i] as int)
  }

  /** `HeaderValue::to_str` gives back the text a header was written from. */
  lemma ToStrAsciiBytes(s: string)
    requires forall i :: 0 <= i < |s| ==> 32 <= (s[i] as int) < 127
    ensures ToStr(AsciiBytes(s)) == Some(s)
  {
    var v := AsciiBytes(s);
    assert forall i :: 0 <= i < |v| ==> IsVisibleAscii(v[i]);
    var t := seq(|v|, i requires 0 <= i < |v| => v[i] as char);
    forall i | 0 <= i < |s|
      ensures t[i] == s[i]
    {
      assert v[i] == s[i] as int;
    }
    assert t == s;
  }

  /** `HeaderValue::to_str` succeeds only on the octets of its result. */
  lemma AsciiBytesToStr(v: seq<byte>)
    requires ToStr(v).Some?
    ensures AsciiBytes(ToStr(v).value) == v
  {
  }

  const OK: int := 200
  const UNAUTHORIZED: int := 401
  const INTERNAL_SERVER_ERROR: int := 500

  /** A response: status code and header (name, value) pairs. */
  datatype Response = Response(status: int, headers: seq<(string, string)>)
}
