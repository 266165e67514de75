/** Octets, as carried by header values and produced by base64 decoding. */
module Bytes {
  type byte = x: int | 0 <= x < 256
}

/** UTF-8 as used by Rust's `String::from_utf8` and `str::as_bytes`: the
    encoding form of section 3.9 of the Unicode Standard, decoded strictly
    (Table 3-7, "Well-Formed UTF-8 Byte Sequences": no overlong forms, no
    surrogates, nothing above U+10FFFF). A Dafny `char` is a Unicode scalar
    value, exactly like a Rust `char`. */
module Utf8 {
  import opened Wrappers
  import opened Bytes

  predicate IsContinuation(b: byte) {
    0x80 <= b < 0xC0
  }

  /** The one-to-four byte form of a single scalar value. */
  function EncodeChar(c: char): (bs: seq<byte>)
    ensures 1 <= |bs| <= 4
    ensures |bs| == 1 <==> (c as int) < 0x80
    ensures bs[0] >= 0x80 ==> forall i :: 1 <= i < |bs| ==> IsContinuation(bs[i])
  {
    var n := c as int;
    if n < 0x80 then [n]
    else if n < 0x800 then [0xC0 + n / 64, 0x80 + n % 64]
    else if n < 0x1_0000 then [0xE0 + n / 4096, 0x80 + (n / 64) % 64, 0x80 + n % 64]
    else [0xF0 + n / 262144, 0x80 + (n / 4096) % 64, 0x80 + (n / 64) % 64, 0x80 + n % 64]
  }

  /** `str::as_bytes`: the concatenated forms of the characters. */
  function Encode(s: string): (bs: seq<byte>)
    ensures |bs| >= |s|
    decreases |s|
  {
    if |s| == 0 then [] else EncodeChar(s[0]) + Encode(s[1..])
  }

  /** The scalar value a well-formed two, three or four byte sequence denotes. */
  function Scalar2(b0: byte, b1: byte): int { (b0 - 0xC0) * 64 + (b1 - 0x80) }
  function Scalar3(b0: byte, b1: byte, b2: byte): int { (b0 - 0xE0) * 4096 + (b1 - 0x80) * 64 + (b2 - 0x80) }
  function Scalar4(b0: byte, b1: byte, b2: byte, b3: byte): int {
    (b0 - 0xF0) * 262144 + (b1 - 0x80) * 4096 + (b2 - 0x80) * 64 + (b3 - 0x80)
  }

  /** The first character of `bs` and the number of bytes it occupies, or
      `None` when `bs` does not start with a well-formed sequence. The range
      allowed for the second byte depends on the first (Table 3-7). */
  function DecodeFirst(bs: seq<byte>): (r: Option<(char, nat)>)
    requires |bs| > 0
    ensures r.Some? ==> 1 <= r.value.1 <= |bs| && r.value.1 <= 4
  {
    var b0 := bs[0];
    if b0 < 0x80 then Some((b0 as char, 1))
    else if 0xC2 <= b0 <= 0xDF then
      if |bs| >= 2 && IsContinuation(bs[1]) then Some((Scalar2(b0, bs[1]) as char, 2)) else None
    else if 0xE0 <= b0 <= 0xEF then
      var lo := if b0 == 0xE0 then 0xA0 else 0x80;
      var hi := if b0 == 0xED then 0x9F else 0xBF;
      if |bs| >= 3 && lo <= bs[1] <= hi && IsContinuation(bs[2])
      then Some((Scalar3(b0, bs[1], bs[2]) as char, 3))
      else None
    else if 0xF0 <= b0 <= 0xF4 then
      var lo := if b0 == 0xF0 then 0x90 else 0x80;
      var hi := if b0 == 0xF4 then 0x8F else 0xBF;
      if |bs| >= 4 && lo <= bs[1] <= hi && IsContinuation(bs[2]) && IsContinuation(bs[3])
      then Some((Scalar4(b0, bs[1], bs[2], bs[3]) as char, 4))
      else None
    else None
  }

  /** `String::from_utf8`: the decoded text, or `None` for ill-formed input. */
  function Decode(bs: seq<byte>): (r: Option<string>)
    ensures r.Some? ==> |r.value| <= |bs| <= 4 * |r.value|
    decreases |bs|
  {
    if |bs| == 0 then Some([])
    else match DecodeFirst(bs)
      case None => None
      case Some((c, k)) =>
        match Decode(bs[k..])
        case None => None
        case Some(rest) => Some([c] + rest)
  }

  lemma EncodeAppend(a: string, b: string)
    ensures Encode(a + b) == Encode(a) + Encode(b)
    decreases |a|
  {
    if |a| > 0 {
      assert (a + b)[1..] == a[1..] + b;
      EncodeAppend(a[1..], b);
    } else {
      assert a + b == b;
    }
  }

  /** Decoding the form of one character gives that character back and
      consumes exactly its form. */
  lemma DecodeFirstEncodeChar(c: char, rest: seq<byte>)
    ensures DecodeFirst(EncodeChar(c) + rest) == Some((c, |EncodeChar(c)|))
  {
    var n := c as int;
    if n < 0x80 {
    } else if n < 0x800 {
      DecodeFirstTwo(c, rest);
    } else if n < 0x1_0000 {
      DecodeFirstThree(c, rest);
    } else {
      DecodeFirstFour(c, rest);
    }
  }

  lemma DecodeFirstTwo(c: char, rest: seq<byte>)
    requires 0x80 <= c as int < 0x800
    ensures DecodeFirst(EncodeChar(c) + rest) == Some((c, 2))
  {
    var n: int := c as int;
    var bs := EncodeChar(c) + rest;
    assert bs[0] == 0xC0 + n / 64 && bs[1] == 0x80 + n % 64;
    assert 0xC2 <= bs[0] <= 0xDF;
    assert Scalar2(bs[0], bs[1]) == n;
  }

  lemma DecodeFirstThree(c: char, rest: seq<byte>)
    requires 0x800 <= c as int < 0x1_0000
    ensures DecodeFirst(EncodeChar(c) + rest) == Some((c, 3))
  {
    var n: int := c as int;
    var bs := EncodeChar(c) + rest;
    var q: int := n / 64;
    assert n == q * 64 + n % 64;
    assert q == (n / 4096) * 64 + q % 64;
    assert bs[0] == 0xE0 + n / 4096 && bs[1] == 0x80 + q % 64 && bs[2] == 0x80 + n % 64;
    assert bs[0] == 0xE0 ==> bs[1] >= 0xA0;
    assert bs[0] == 0xED ==> bs[1] <= 0x9F;
    assert Scalar3(bs[0], bs[1], bs[2]) == n;
  }

  lemma DecodeFirstFour(c: char, rest: seq<byte>)
    requires 0x1_0000 <= c as int
    ensures DecodeFirst(EncodeChar(c) + rest) == Some((c, 4))
  {
    var n: int := c as int;
    var bs := EncodeChar(c) + rest;
    var q: int := n / 64;
    var q2: int := n / 4096;
    assert n == q * 64 + n % 64;
    assert q == q2 * 64 + q % 64;
    assert q2 == (n / 262144) * 64 + q2 % 64;
    assert bs[0] == 0xF0 + n / 262144 && bs[1] == 0x80 + q2 % 64;
    assert bs[2] == 0x80 + q % 64 && bs[3] == 0x80 + n % 64;
    assert bs[0] <= 0xF4;
    assert bs[0] == 0xF0 ==> bs[1] >= 0x90;
    assert bs[0] == 0xF4 ==> bs[1] <= 0x8F;
    assert Scalar4(bs[0], bs[1], bs[2], bs[3]) == n;
  }

  /** A well-formed prefix is exactly the form of the character it decodes to. */
  lemma EncodeCharDecodeFirst(bs: seq<byte>)
    requires |bs| > 0 && DecodeFirst(bs).Some?
    ensures EncodeChar(DecodeFirst(bs).value.0) == bs[..DecodeFirst(bs).value.1]
  {
    if bs[0] < 0x80 {
    } else if bs[0] <= 0xDF {
      EncodeCharTwo(bs);
    } else if bs[0] <= 0xEF {
      EncodeCharThree(bs);
    } else {
      EncodeCharFour(bs);
    }
  }

  lemma EncodeCharTwo(bs: seq<byte>)
    requires |bs| >= 2 && 0xC2 <= bs[0] <= 0xDF && IsContinuation(bs[1])
    ensures EncodeChar(Scalar2(bs[0], bs[1]) as char) == bs[..2]
  {
    var b0: int := bs[0];
    var b1: int := bs[1];
    var n: int := Scalar2(bs[0], bs[1]);
    assert n / 64 == b0 - 0xC0 && n % 64 == b1 - 0x80;
  }

  lemma EncodeCharThree(bs: seq<byte>)
    requires |bs| >= 3 && 0xE0 <= bs[0] <= 0xEF && IsContinuation(bs[1]) && IsContinuation(bs[2])
    requires bs[0] == 0xE0 ==> bs[1] >= 0xA0
    requires bs[0] == 0xED ==> bs[1] <= 0x9F
    ensures EncodeChar(Scalar3(bs[0], bs[1], bs[2]) as char) == bs[..3]
  {
    var b0: int := bs[0];
    var b1: int := bs[1];
    var b2: int := bs[2];
    var n: int := Scalar3(bs[0], bs[1], bs[2]);
    assert n / 4096 == b0 - 0xE0;
    assert n / 64 == (b0 - 0xE0) * 64 + (b1 - 0x80);
    assert n % 64 == b2 - 0x80;
  }

  lemma EncodeCharFour(bs: seq<byte>)
    requires |bs| >= 4 && 0xF0 <= bs[0] <= 0xF4
    requires IsContinuation(bs[1]) && IsContinuation(bs[2]) && IsContinuation(bs[3])
    requires bs[0] == 0xF0 ==> bs[1] >= 0x90
    requires bs[0] == 0xF4 ==> bs[1] <= 0x8F
    ensures EncodeChar(Scalar4(bs[0], bs[1], bs[2], bs[3]) as char) == bs[..4]
  {
    var b0: int := bs[0];
    var b1: int := bs[1];
    var b2: int := bs[2];
    var b3: int := bs[3];
    var n: int := Scalar4(bs[0], bs[1], bs[2], bs[3]);
    assert n / 262144 == b0 - 0xF0;
    assert n / 4096 == (b0 - 0xF0) * 64 + (b1 - 0x80);
    assert n / 64 == ((b0 - 0xF0) * 64 + (b1 - 0x80)) * 64 + (b2 - 0x80);
    assert n % 64 == b3 - 0x80;
  }

  /** Round trip: every string survives encoding and strict decoding. */
  lemma {:induction false} DecodeEncode(s: string)
    ensures Decode(Encode(s)) == Some(s)
    decreases |s|
  {
    if |s| > 0 {
      var e := EncodeChar(s[0]);
      DecodeFirstEncodeChar(s[0], Encode(s[1..]));
      assert (e + Encode(s[1..]))[|e|..] == Encode(s[1..]);
      DecodeEncode(s[1..]);
      assert [s[0]] + s[1..] == s;
    }
  }

  /** Round trip the other way: decoding succeeds only on the encoding of
      its result, so `Decode` is injective and `Encode` is its exact inverse. */
  lemma {:induction false} EncodeDecode(bs: seq<byte>)
    requires Decode(bs).Some?
    ensures Encode(Decode(bs).value) == bs
    decreases |bs|
  {
    if |bs| > 0 {
      var k := DecodeFirst(bs).value.1;
      EncodeCharDecodeFirst(bs);
      EncodeDecode(bs[k..]);
      assert bs[..k] + bs[k..] == bs;
    }
  }

  /** `Decode` succeeds with `s` exactly on `Encode(s)`. */
  lemma DecodeIff(bs: seq<byte>, s: string)
    ensures Decode(bs) == Some(s) <==> bs == Encode(s)
  {
    if Decode(bs) == Some(s) {
      EncodeDecode(bs);
    }
    if bs == Encode(s) {
      DecodeEncode(s);
    }
  }
}
