/** Base 64 encoding as defined in section 4 of RFC 4648 (the alphabet of its
    Table 1, with `=` padding), which Node's `Buffer.toString('base64')` produces.
    Decoding is the partner that shows the encoding loses nothing. */
module Base64 {
  import opened Outcomes

  type byte = x: int | 0 <= x < 256
  type sextet = x: int | 0 <= x < 64

  const Pad: char := '='

  /** The character that encodes a 6-bit group (RFC 4648, Table 1). */
  function Digit(v: sextet): (c: char)
    ensures c != Pad
  {
    if v < 26 then (('A' as int) + v) as char
    else if v < 52 then (('a' as int) + (v - 26)) as char
    else if v < 62 then (('0' as int) + (v - 52)) as char
    else if v == 62 then '+'
    else '/'
  }

  /** The 6-bit group a character encodes, if it is in the alphabet. */
  function DigitValue(c: char): (r: Option<sextet>)
    ensures r.Some? ==> Digit(r.value) == c
  {
    if 'A' <= c <= 'Z' then Some(c as int - 'A' as int)
    else if 'a' <= c <= 'z' then Some(c as int - 'a' as int + 26)
    else if '0' <= c <= '9' then Some(c as int - '0' as int + 52)
    else if c == '+' then Some(62)
    else if c == '/' then Some(63)
    else None
  }

  lemma DigitValueOfDigit(v: sextet)
    ensures DigitValue(Digit(v)) == Some(v)
  {
  }

  /** Three bytes (24 bits) as four characters, most significant bits first. */
  function EncodeTriple(a: byte, b: byte, c: byte): string {
    [Digit(a / 4), Digit((a % 4) * 16 + b / 16), Digit((b % 16) * 4 + c / 64), Digit(c % 64)]
  }

  /** The base 64 encoding of `bytes`; a final group of one or two bytes is padded. */
  function Encode(bytes: seq<byte>): (s: string)
    ensures |s| == (|bytes| + 2) / 3 * 4
    decreases |bytes|
  {
    if |bytes| == 0 then ""
    else if |bytes| == 1 then
      [Digit(bytes[0] / 4), Digit((bytes[0] % 4) * 16), Pad, Pad]
    else if |bytes| == 2 then
      [Digit(bytes[0] / 4), Digit((bytes[0] % 4) * 16 + bytes[1] / 16), Digit((bytes[1] % 16) * 4), Pad]
    else
      EncodeTriple(bytes[0], bytes[1], bytes[2]) + Encode(bytes[3..])
  }

  /** Four alphabet characters back to three bytes. */
  function DecodeQuad(q: string): Option<seq<byte>>
    requires |q| == 4
  {
    match (DigitValue(q[0]), DigitValue(q[1]), DigitValue(q[2]), DigitValue(q[3]))
    case (Some(v0), Some(v1), Some(v2), Some(v3)) =>
      Some([v0 as int * 4 + v1 / 16, (v1 as int % 16) * 16 + v2 / 4, (v2 as int % 4) * 64 + v3])
    case _ => None
  }

  /** The last quadruple, which may end in one or two padding characters. */
  function DecodeFinal(q: string): Option<seq<byte>>
    requires |q| == 4
  {
    if q[2] == Pad && q[3] == Pad then
      match (DigitValue(q[0]), DigitValue(q[1]))
      case (Some(v0), Some(v1)) => Some([v0 as int * 4 + v1 / 16])
      case _ => None
    else if q[3] == Pad then
      match (DigitValue(q[0]), DigitValue(q[1]), DigitValue(q[2]))
      case (Some(v0), Some(v1), Some(v2)) => Some([v0 as int * 4 + v1 / 16, (v1 as int % 16) * 16 + v2 / 4])
      case _ => None
    else DecodeQuad(q)
  }

  /** Decodes a padded base 64 string; `None` when it is not one. */
  function Decode(s: string): Option<seq<byte>>
    decreases |s|
  {
    if |s| == 0 then Some([])
    else if |s| < 4 then None
    else if |s| == 4 then DecodeFinal(s)
    else match (DecodeQuad(s[..4]), Decode(s[4..]))
      case (Some(head), Some(tail)) => Some(head + tail)
      case _ => None
  }

  lemma TripleRoundTrip(a: byte, b: byte, c: byte)
    ensures DecodeQuad(EncodeTriple(a, b, c)) == Some([a, b, c])
  {
    var v0, v1, v2, v3 := a / 4, (a % 4) * 16 + b / 16, (b % 16) * 4 + c / 64, c % 64;
    DigitValueOfDigit(v0);
    DigitValueOfDigit(v1);
    DigitValueOfDigit(v2);
    DigitValueOfDigit(v3);
    assert v1 / 16 == a % 4 && v1 % 16 == b / 16;
    assert v2 / 4 == b % 16 && v2 % 4 == c / 64;
  }

  lemma SingleRoundTrip(a: byte)
    ensures Decode(Encode([a])) == Some([a])
  {
    var v1 := (a % 4) * 16;
    DigitValueOfDigit(a / 4);
    DigitValueOfDigit(v1);
    assert v1 / 16 == a % 4;
    assert Encode([a]) == [Digit(a / 4), Digit(v1), Pad, Pad];
  }

  lemma PairRoundTrip(a: byte, b: byte)
    ensures Decode(Encode([a, b])) == Some([a, b])
  {
    var v1, v2 := (a % 4) * 16 + b / 16, (b % 16) * 4;
    DigitValueOfDigit(a / 4);
    DigitValueOfDigit(v1);
    DigitValueOfDigit(v2);
    assert v1 / 16 == a % 4 && v1 % 16 == b / 16 && v2 / 4 == b % 16;
    assert Encode([a, b]) == [Digit(a / 4), Digit(v1), Digit(v2), Pad];
  }

  /** A final unpadded quadruple decodes to its three bytes. */
  lemma LastTripleRoundTrip(a: byte, b: byte, c: byte)
    ensures Decode(EncodeTriple(a, b, c)) == Some([a, b, c])
  {
    TripleRoundTrip(a, b, c);
  }

  /** An unpadded quadruple in front of a decodable rest decodes to its three bytes
      in front of the rest's bytes. */
  lemma TripleThenRoundTrip(a: byte, b: byte, c: byte, rest: string)
    requires |rest| > 0 && Decode(rest).Some?
    ensures Decode(EncodeTriple(a, b, c) + rest) == Some([a, b, c] + Decode(rest).value)
  {
    var s := EncodeTriple(a, b, c) + rest;
    TripleRoundTrip(a, b, c);
    assert s[..4] == EncodeTriple(a, b, c) && s[4..] == rest;
  }

  /** One or two bytes: the padded final group decodes back. */
  lemma ShortRoundTrip(bytes: seq<byte>)
    requires 0 < |bytes| <= 2
    ensures Decode(Encode(bytes)) == Some(bytes)
  {
    if |bytes| == 1 {
      assert bytes == [bytes[0]];
      SingleRoundTrip(bytes[0]);
    } else {
      assert bytes == [bytes[0], bytes[1]];
      PairRoundTrip(bytes[0], bytes[1]);
    }
  }

  /** Exactly three bytes: one unpadded group. */
  lemma ThreeRoundTrip(bytes: seq<byte>)
    requires |bytes| == 3
    ensures Decode(Encode(bytes)) == Some(bytes)
  {
    assert Encode(bytes) == EncodeTriple(bytes[0], bytes[1], bytes[2]) + Encode(bytes[3..]);
    assert Encode(bytes) == EncodeTriple(bytes[0], bytes[1], bytes[2]);
    LastTripleRoundTrip(bytes[0], bytes[1], bytes[2]);
    assert bytes == [bytes[0], bytes[1], bytes[2]];
  }

  lemma SplitThree(bytes: seq<byte>)
    requires |bytes| >= 3
    ensures bytes == [bytes[0], bytes[1], bytes[2]] + bytes[3..]
  {
    assert bytes[..3] == [bytes[0], bytes[1], bytes[2]];
    assert bytes == bytes[..3] + bytes[3..];
  }

  /** More than three bytes: the first group decodes in front of the rest. */
  lemma LongRoundTripStep(bytes: seq<byte>)
    requires |bytes| > 3 && Decode(Encode(bytes[3..])) == Some(bytes[3..])
    ensures Decode(Encode(bytes)) == Some(bytes)
  {
    var rest := Encode(bytes[3..]);
    assert Encode(bytes) == EncodeTriple(bytes[0], bytes[1], bytes[2]) + rest;
    assert (|bytes[3..]| + 2) / 3 >= 1;
    TripleThenRoundTrip(bytes[0], bytes[1], bytes[2], rest);
    SplitThree(bytes);
  }

  /** Decoding undoes encoding, for every byte string. */
  lemma {:induction false} DecodeEncode(bytes: seq<byte>)
    ensures Decode(Encode(bytes)) == Some(bytes)
    decreases |bytes|
  {
    if |bytes| == 0 {
    } else if |bytes| <= 2 {
      ShortRoundTrip(bytes);
    } else if |bytes| == 3 {
      ThreeRoundTrip(bytes);
    } else {
      DecodeEncode(bytes[3..]);
      LongRoundTripStep(bytes);
    }
  }
}
