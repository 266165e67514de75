/** Base64 with the standard alphabet and padding, section 4 of RFC 4648.
    `Decode` is the canonical decoder: the input is a whole number of
    four-character groups, `=` appears only as the one or two final
    characters, and the bits a padded final group discards must be zero
    (section 3.5 of RFC 4648). `DecodeIndifferent` is the `base64::STANDARD`
    decoder that `basic_authentication` uses: the same, except that the
    final `=` may be left off. */
module Base64 {
  import opened Wrappers
  import opened Bytes
  import Seqs

  type index = x: int | 0 <= x < 64

  /** The 64 characters of Table 1 of RFC 4648. */
  predicate IsAlphabetChar(c: char) {
    'A' <= c <= 'Z' || 'a' <= c <= 'z' || '0' <= c <= '9' || c == '+' || c == '/'
  }

  const PAD: char := '='

  function CharOf(i: index): (c: char)
    ensures IsAlphabetChar(c)
  {
    if i < 26 then ('A' as int + i) as char
    else if i < 52 then ('a' as int + (i - 26)) as char
    else if i < 62 then ('0' as int + (i - 52)) as char
    else if i == 62 then '+'
    else '/'
  }

  function IndexOf(c: char): (i: index)
    requires IsAlphabetChar(c)
    ensures CharOf(i) == c
  {
    if 'A' <= c <= 'Z' then c as int - 'A' as int
    else if 'a' <= c <= 'z' then c as int - 'a' as int + 26
    else if '0' <= c <= '9' then c as int - '0' as int + 52
    else if c == '+' then 62
    else 63
  }

  lemma IndexOfCharOf(i: index)
    ensures IndexOf(CharOf(i)) == i
  {
  }

  /** Three octets as four characters (section 4 of RFC 4648). */
  function EncodeTriple(b0: byte, b1: byte, b2: byte): string {
    [CharOf(b0 / 4), CharOf((b0 % 4) * 16 + b1 / 16), CharOf((b1 % 16) * 4 + b2 / 64), CharOf(b2 % 64)]
  }

  /** Encoding; a final group of one or two octets is padded with `=`. */
  function Encode(bs: seq<byte>): (s: string)
    ensures |s| % 4 == 0 && (|s| == 0 <==> |bs| == 0)
    ensures forall i :: 0 <= i < |s| ==> IsAlphabetChar(s[i]) || s[i] == PAD
    decreases |bs|
  {
    if |bs| == 0 then []
    else if |bs| == 1 then [CharOf(bs[0] / 4), CharOf((bs[0] % 4) * 16), PAD, PAD]
    else if |bs| == 2 then [CharOf(bs[0] / 4), CharOf((bs[0] % 4) * 16 + bs[1] / 16), CharOf((bs[1] % 16) * 4), PAD]
    else EncodeTriple(bs[0], bs[1], bs[2]) + Encode(bs[3..])
  }

  /** The three octets four sextets denote. */
  function DecodeQuad(a: index, b: index, c: index, d: index): seq<byte> {
    [a * 4 + b / 16, (b % 16) * 16 + c / 4, (c % 4) * 64 + d]
  }

  predicate IsFullGroup(q: string)
    requires |q| >= 4
  {
    IsAlphabetChar(q[0]) && IsAlphabetChar(q[1]) && IsAlphabetChar(q[2]) && IsAlphabetChar(q[3])
  }

  /** The last group: complete, or padded with zero discarded bits. */
  function DecodeFinal(q: string): Option<seq<byte>>
    requires |q| == 4
  {
    if IsFullGroup(q) then
      Some(DecodeQuad(IndexOf(q[0]), IndexOf(q[1]), IndexOf(q[2]), IndexOf(q[3])))
    else if IsAlphabetChar(q[0]) && IsAlphabetChar(q[1]) && q[2] == PAD && q[3] == PAD then
      if IndexOf(q[1]) % 16 == 0 then Some([IndexOf(q[0]) * 4 + IndexOf(q[1]) / 16]) else None
    else if IsAlphabetChar(q[0]) && IsAlphabetChar(q[1]) && IsAlphabetChar(q[2]) && q[3] == PAD then
      if IndexOf(q[2]) % 4 == 0
      then Some(DecodeQuad(IndexOf(q[0]), IndexOf(q[1]), IndexOf(q[2]), 0)[..2])
      else None
    else None
  }

  /** Decoding: `None` for any input that is not the encoding of some octets. */
  function Decode(s: string): (r: Option<seq<byte>>)
    ensures r.Some? ==> |s| % 4 == 0 && 4 * |r.value| <= 3 * |s| && 3 * |s| <= 4 * |r.value| + 8
    decreases |s|
  {
    if |s| == 0 then Some([])
    else if |s| < 4 then None
    else if |s| == 4 then DecodeFinal(s)
    else if IsFullGroup(s) then
      match Decode(s[4..])
      case None => None
      case Some(rest) => Some(DecodeQuad(IndexOf(s[0]), IndexOf(s[1]), IndexOf(s[2]), IndexOf(s[3])) + rest)
    else None
  }

  /** Splitting three octets into sextets and joining them back, on integers. */
  lemma TripleDigits(b0: int, b1: int, b2: int)
    requires 0 <= b0 < 256 && 0 <= b1 < 256 && 0 <= b2 < 256
    ensures var b := (b0 % 4) * 16 + b1 / 16;
            var c := (b1 % 16) * 4 + b2 / 64;
            (b0 / 4) * 4 + b / 16 == b0 && (b % 16) * 16 + c / 4 == b1 && (c % 4) * 64 + b2 % 64 == b2
  {
  }

  /** Joining four sextets into octets and splitting them again, on integers. */
  lemma QuadDigits(a: int, b: int, c: int, d: int)
    requires 0 <= a < 64 && 0 <= b < 64 && 0 <= c < 64 && 0 <= d < 64
    ensures var x0 := a * 4 + b / 16;
            var x1 := (b % 16) * 16 + c / 4;
            var x2 := (c % 4) * 64 + d;
            && 0 <= x0 < 256 && 0 <= x1 < 256 && 0 <= x2 < 256
            && x0 / 4 == a && (x0 % 4) * 16 + x1 / 16 == b
            && (x1 % 16) * 4 + x2 / 64 == c && x2 % 64 == d
  {
    var x0 := a * 4 + b / 16;
    var x1 := (b % 16) * 16 + c / 4;
    var x2 := (c % 4) * 64 + d;
    assert x0 / 4 == a && x0 % 4 == b / 16;
    assert x1 / 16 == b % 16 && x1 % 16 == c / 4;
    assert x2 / 64 == c % 4 && x2 % 64 == d;
  }

  lemma TripleRoundTrip(b0: byte, b1: byte, b2: byte)
    ensures var q := EncodeTriple(b0, b1, b2);
            IsFullGroup(q) && DecodeQuad(IndexOf(q[0]), IndexOf(q[1]), IndexOf(q[2]), IndexOf(q[3])) == [b0, b1, b2]
  {
    var a: index := b0 / 4;
    var b: index := (b0 % 4) * 16 + b1 / 16;
    var c: index := (b1 % 16) * 4 + b2 / 64;
    var d: index := b2 % 64;
    IndexOfCharOf(a); IndexOfCharOf(b); IndexOfCharOf(c); IndexOfCharOf(d);
    TripleDigits(b0, b1, b2);
  }

  lemma QuadRoundTrip(a: index, b: index, c: index, d: index)
    ensures var t := DecodeQuad(a, b, c, d);
            EncodeTriple(t[0], t[1], t[2]) == [CharOf(a), CharOf(b), CharOf(c), CharOf(d)]
  {
    var t := DecodeQuad(a, b, c, d);
    QuadDigits(a, b, c, d);
    assert t[0] / 4 == a;
    assert (t[0] % 4) * 16 + t[1] / 16 == b;
    assert (t[1] % 16) * 4 + t[2] / 64 == c;
    assert t[2] % 64 == d;
  }

  lemma DecodeEncodeOne(b0: byte)
    ensures Decode(Encode([b0])) == Some([b0])
  {
    var a: index := b0 / 4;
    var b: index := (b0 % 4) * 16;
    IndexOfCharOf(a); IndexOfCharOf(b);
  }

  lemma DecodeEncodeTwo(b0: byte, b1: byte)
    ensures Decode(Encode([b0, b1])) == Some([b0, b1])
  {
    var a: index := b0 / 4;
    var b: index := (b0 % 4) * 16 + b1 / 16;
    var c: index := (b1 % 16) * 4;
    IndexOfCharOf(a); IndexOfCharOf(b); IndexOfCharOf(c);
    TripleDigits(b0, b1, 0);
    var q := Encode([b0, b1]);
    assert q == [CharOf(a), CharOf(b), CharOf(c), PAD];
    assert !IsFullGroup(q) && q[2] != PAD;
    assert IndexOf(q[2]) % 4 == 0;
    assert DecodeFinal(q) == Some(DecodeQuad(a, b, c, 0)[..2]);
    assert DecodeQuad(a, b, c, 0)[..2] == [b0, b1];
  }

  /** Decoding a complete group followed by more input. */
  lemma DecodeCons(q: string, rest: string)
    requires |q| == 4 && IsFullGroup(q) && |rest| > 0
    ensures Decode(q + rest) ==
      match Decode(rest)
      case None => None
      case Some(tail) => Some(DecodeQuad(IndexOf(q[0]), IndexOf(q[1]), IndexOf(q[2]), IndexOf(q[3])) + tail)
  {
    var s := q + rest;
    assert s[..4] == q;
    assert s[4..] == rest;
  }

  lemma EncodeCons(t: seq<byte>, rest: seq<byte>)
    requires |t| == 3
    ensures Encode(t + rest) == EncodeTriple(t[0], t[1], t[2]) + Encode(rest)
  {
    assert (t + rest)[3..] == rest;
  }

  /** Three octets encode to one complete group that decodes back to them. */
  lemma GroupDecodes(t: seq<byte>)
    requires |t| == 3
    ensures var q := EncodeTriple(t[0], t[1], t[2]);
            |q| == 4 && IsFullGroup(q) && DecodeQuad(IndexOf(q[0]), IndexOf(q[1]), IndexOf(q[2]), IndexOf(q[3])) == t
  {
    TripleRoundTrip(t[0], t[1], t[2]);
    assert [t[0], t[1], t[2]] == t;
  }

  lemma DecodeEncodeTriple(t: seq<byte>)
    requires |t| == 3
    ensures Decode(Encode(t)) == Some(t)
  {
    GroupDecodes(t);
    EncodeCons(t, []);
    assert t + [] == t;
  }

  /** One leading group: if the rest round-trips, so does the whole. */
  lemma DecodeEncodeGroup(t: seq<byte>, rest: seq<byte>)
    requires |t| == 3 && |rest| > 0
    requires Decode(Encode(rest)) == Some(rest)
    ensures Decode(Encode(t + rest)) == Some(t + rest)
  {
    GroupDecodes(t);
    EncodeCons(t, rest);
    DecodeCons(EncodeTriple(t[0], t[1], t[2]), Encode(rest));
  }

  /** Round trip: decoding an encoding gives back the octets. */
  lemma {:induction false} DecodeEncode(bs: seq<byte>)
    ensures Decode(Encode(bs)) == Some(bs)
    decreases |bs|
  {
    if |bs| == 1 {
      assert bs == [bs[0]];
      DecodeEncodeOne(bs[0]);
    } else if |bs| == 2 {
      assert bs == [bs[0], bs[1]];
      DecodeEncodeTwo(bs[0], bs[1]);
    } else if |bs| == 3 {
      DecodeEncodeTriple(bs);
    } else if |bs| > 3 {
      DecodeEncode(bs[3..]);
      DecodeEncodeGroup(bs[..3], bs[3..]);
      assert bs[..3] + bs[3..] == bs;
    }
  }

  lemma FinalFullRoundTrip(q: string)
    requires |q| == 4 && IsFullGroup(q)
    ensures Encode(DecodeFinal(q).value) == q
  {
    var a, b, c, d := IndexOf(q[0]), IndexOf(q[1]), IndexOf(q[2]), IndexOf(q[3]);
    var t := DecodeQuad(a, b, c, d);
    assert DecodeFinal(q) == Some(t);
    QuadRoundTrip(a, b, c, d);
    assert Encode(t) == EncodeTriple(t[0], t[1], t[2]) + Encode(t[3..]);
    assert q == [q[0], q[1], q[2], q[3]];
  }

  lemma FinalOneRoundTrip(q: string)
    requires |q| == 4 && IsAlphabetChar(q[0]) && IsAlphabetChar(q[1]) && q[2] == PAD && q[3] == PAD
    requires IndexOf(q[1]) % 16 == 0
    ensures Encode(DecodeFinal(q).value) == q
  {
    var a: int := IndexOf(q[0]);
    var b: int := IndexOf(q[1]);
    assert !IsFullGroup(q);
    var x := a * 4 + b / 16;
    assert DecodeFinal(q) == Some([x]);
    QuadDigits(a, b, 0, 0);
    assert x / 4 == a && (x % 4) * 16 == b;
    assert q == [CharOf(a), CharOf(b), PAD, PAD];
  }

  /** Two sextets and a third with its low two bits clear, joined into two
      octets and split again, on integers. */
  lemma TwoDigits(a: int, b: int, c: int)
    requires 0 <= a < 64 && 0 <= b < 64 && 0 <= c < 64 && c % 4 == 0
    ensures var x0 := a * 4 + b / 16;
            var x1 := (b % 16) * 16 + c / 4;
            && 0 <= x0 < 256 && 0 <= x1 < 256
            && x0 / 4 == a && (x0 % 4) * 16 + x1 / 16 == b && (x1 % 16) * 4 == c
  {
    QuadDigits(a, b, c, 0);
  }

  lemma EncodePair(x0: byte, x1: byte, a: index, b: index, c: index)
    requires x0 / 4 == a && (x0 % 4) * 16 + x1 / 16 == b && (x1 % 16) * 4 == c
    ensures Encode([x0, x1]) == [CharOf(a), CharOf(b), CharOf(c), PAD]
  {
  }

  lemma DecodeFinalTwo(q: string)
    requires |q| == 4 && IsAlphabetChar(q[0]) && IsAlphabetChar(q[1]) && IsAlphabetChar(q[2]) && q[3] == PAD
    requires IndexOf(q[2]) % 4 == 0
    ensures var a, b, c := IndexOf(q[0]), IndexOf(q[1]), IndexOf(q[2]);
            DecodeFinal(q) == Some([a * 4 + b / 16, (b % 16) * 16 + c / 4])
  {
    var a: int, b: int, c: int := IndexOf(q[0]), IndexOf(q[1]), IndexOf(q[2]);
    assert !IsFullGroup(q);
    assert DecodeQuad(a, b, c, 0)[..2] == [a * 4 + b / 16, (b % 16) * 16 + c / 4];
  }

  lemma FinalTwoRoundTrip(q: string)
    requires |q| == 4 && IsAlphabetChar(q[0]) && IsAlphabetChar(q[1]) && IsAlphabetChar(q[2]) && q[3] == PAD
    requires IndexOf(q[2]) % 4 == 0
    ensures Encode(DecodeFinal(q).value) == q
  {
    var a: int, b: int, c: int := IndexOf(q[0]), IndexOf(q[1]), IndexOf(q[2]);
    DecodeFinalTwo(q);
    TwoDigits(a, b, c);
    var x0: byte, x1: byte := a * 4 + b / 16, (b % 16) * 16 + c / 4;
    assert DecodeFinal(q).value == [x0, x1];
    EncodePair(x0, x1, a, b, c);
    assert CharOf(a) == q[0] && CharOf(b) == q[1] && CharOf(c) == q[2];
    assert q == [CharOf(a), CharOf(b), CharOf(c), PAD];
  }

  /** The padded forms of a final group of one or two octets are exactly
      what `Encode` writes for them. */
  lemma FinalRoundTrip(q: string)
    requires |q| == 4 && DecodeFinal(q).Some?
    ensures Encode(DecodeFinal(q).value) == q
  {
    if IsFullGroup(q) {
      FinalFullRoundTrip(q);
    } else if q[2] == PAD {
      FinalOneRoundTrip(q);
    } else {
      FinalTwoRoundTrip(q);
    }
  }

  lemma SplitFour<T>(s: seq<T>)
    requires |s| >= 4
    ensures s == [s[0], s[1], s[2], s[3]] + s[4..]
  {
  }

  /** One leading group: if the rest is canonical, so is the whole. */
  lemma EncodeDecodeGroup(s: string)
    requires |s| > 4 && Decode(s).Some?
    requires Encode(Decode(s[4..]).value) == s[4..]
    ensures Encode(Decode(s).value) == s
  {
    var a, b, c, d := IndexOf(s[0]), IndexOf(s[1]), IndexOf(s[2]), IndexOf(s[3]);
    var t := DecodeQuad(a, b, c, d);
    var rest := Decode(s[4..]).value;
    assert Decode(s).value == t + rest;
    QuadRoundTrip(a, b, c, d);
    EncodeCons(t, rest);
    SplitFour(s);
  }

  /** Round trip the other way: whatever decodes is the canonical encoding
      of its result. */
  lemma {:induction false} EncodeDecode(s: string)
    requires Decode(s).Some?
    ensures Encode(Decode(s).value) == s
    decreases |s|
  {
    if |s| == 4 {
      FinalRoundTrip(s);
    } else if |s| > 4 {
      EncodeDecode(s[4..]);
      EncodeDecodeGroup(s);
    }
  }

  /** `Decode` accepts `s` with result `bs` exactly when `s` is the encoding of `bs`. */
  lemma DecodeIff(s: string, bs: seq<byte>)
    ensures Decode(s) == Some(bs) <==> s == Encode(bs)
  {
    if Decode(s) == Some(bs) {
      EncodeDecode(s);
    }
    if s == Encode(bs) {
      DecodeEncode(bs);
    }
  }

  /** The `=` a final group of two or three characters lacks. */
  function CompletePadding(s: string): string {
    if |s| % 4 == 2 then s + [PAD, PAD] else if |s| % 4 == 3 then s + [PAD] else s
  }

  /** `base64::decode_config(_, base64::STANDARD)` of base64 0.13 and earlier:
      padding is optional (the canonical `=` or any shorter run of it), while
      the alphabet, the grouping and the zero discarded bits are enforced as
      by `Decode`. */
  function DecodeIndifferent(s: string): (r: Option<seq<byte>>)
    ensures Decode(s).Some? ==> r == Decode(s)
  {
    Decode(CompletePadding(s))
  }

  /** Padding only ever fills the last two positions of an encoding. */
  lemma {:induction false} EncodePadsAtEnd(bs: seq<byte>)
    ensures forall i :: 0 <= i < |Encode(bs)| - 2 ==> IsAlphabetChar(Encode(bs)[i])
    decreases |bs|
  {
    if |bs| > 3 {
      EncodePadsAtEnd(bs[3..]);
      var t := EncodeTriple(bs[0], bs[1], bs[2]);
      var rest := Encode(bs[3..]);
      assert Encode(bs) == t + rest;
      forall i | 0 <= i < |Encode(bs)| - 2
        ensures IsAlphabetChar(Encode(bs)[i])
      {
        if i >= 4 {
          assert Encode(bs)[i] == rest[i - 4];
        }
      }
    }
  }

  /** Whatever the lenient decoder accepts is an encoding with some of its
      padding left off. */
  lemma DecodeIndifferentSound(s: string, bs: seq<byte>)
    requires DecodeIndifferent(s) == Some(bs)
    ensures Seqs.DropsTrailing(Encode(bs), s, PAD)
  {
    var p := CompletePadding(s);
    DecodeIff(p, bs);
    assert p[..|s|] == s;
  }

  /** A text of whole groups with `=` at most in its last two positions,
      shortened by some of its trailing `=`, gets them back from
      `CompletePadding`. */
  lemma CompletePaddingRestores(e: string, s: string)
    requires |e| % 4 == 0 && forall i :: 0 <= i < |e| - 2 ==> IsAlphabetChar(e[i])
    requires Seqs.DropsTrailing(e, s, PAD)
    ensures CompletePadding(s) == e
  {
    assert |e| > 2 ==> IsAlphabetChar(e[|e| - 3]);
    if |s| == |e| - 1 {
      assert e == s + [PAD];
    } else if |s| == |e| - 2 {
      assert e == s + [PAD, PAD];
    } else {
      assert s == e;
    }
  }

  /** The lenient decoder accepts `s` with result `bs` exactly when `s` is the
      encoding of `bs` with some or all of its padding left off. */
  lemma DecodeIndifferentIff(s: string, bs: seq<byte>)
    ensures DecodeIndifferent(s) == Some(bs) <==> Seqs.DropsTrailing(Encode(bs), s, PAD)
  {
    if DecodeIndifferent(s) == Some(bs) {
      DecodeIndifferentSound(s, bs);
    }
    if Seqs.DropsTrailing(Encode(bs), s, PAD) {
      EncodePadsAtEnd(bs);
      CompletePaddingRestores(Encode(bs), s);
      DecodeEncode(bs);
    }
  }
}
