/**
 * The browser's `btoa`, which both upload paths call on their binary string,
 * written out as the base 64 encoding of section 4 of RFC 4648 (the standard
 * alphabet, with '=' padding). It is a browser builtin, not code of the
 * client; the decoder below is here only as the inverse it is proved against.
 */
module Base64 {
  import opened Wrappers
  import opened BinaryString

  /** A 6-bit group of the encoding. */
  type Sextet = v: int | 0 <= v < 64

  /** Table 1 of RFC 4648: A-Z, a-z, 0-9, '+', '/'. */
  function SextetChar(v: Sextet): char {
    if v < 26 then ('A' as int + v) as char
    else if v < 52 then ('a' as int + (v - 26)) as char
    else if v < 62 then ('0' as int + (v - 52)) as char
    else if v == 62 then '+'
    else '/'
  }

  /** The value a character of the alphabet encodes; none for any other character. */
  function SextetValue(c: char): Option<Sextet> {
    if 'A' <= c <= 'Z' then Some(c as int - 'A' as int)
    else if 'a' <= c <= 'z' then Some(c as int - 'a' as int + 26)
    else if '0' <= c <= '9' then Some(c as int - '0' as int + 52)
    else if c == '+' then Some(62)
    else if c == '/' then Some(63)
    else None
  }

  /** Reading a character of the alphabet gives back the value it encodes. */
  lemma SextetRoundTrip(v: Sextet)
    ensures SextetValue(SextetChar(v)) == Some(v)
    ensures SextetChar(v) != Pad
  {
  }

  const Pad: char := '='

  /** Three bytes, most significant bit first, as four sextets. */
  function EncodeTriple(b0: byte, b1: byte, b2: byte): string {
    [ SextetChar(b0 as int / 4),
      SextetChar(b0 as int % 4 * 16 + b1 as int / 16),
      SextetChar(b1 as int % 16 * 4 + b2 as int / 64),
      SextetChar(b2 as int % 64) ]
  }

  /**
   * The encoding of a byte sequence: whole groups of three bytes, then a
   * last group of one or two bytes padded with "==" or "=".
   */
  function Encode(bytes: seq<byte>): (s: string)
    ensures |s| % 4 == 0
    ensures |s| / 4 * 3 - 2 <= |bytes| <= |s| / 4 * 3
  {
    if |bytes| == 0 then ""
    else if |bytes| == 1 then
      [SextetChar(bytes[0] as int / 4), SextetChar(bytes[0] as int % 4 * 16), Pad, Pad]
    else if |bytes| == 2 then
      [ SextetChar(bytes[0] as int / 4),
        SextetChar(bytes[0] as int % 4 * 16 + bytes[1] as int / 16),
        SextetChar(bytes[1] as int % 16 * 4),
        Pad ]
    else
      EncodeTriple(bytes[0], bytes[1], bytes[2]) + Encode(bytes[3..])
  }

  /** Four sextets back to three bytes. */
  function DecodeQuad(s0: Sextet, s1: Sextet, s2: Sextet, s3: Sextet): seq<byte> {
    [ (s0 * 4 + s1 / 16) as byte,
      (s1 % 16 * 16 + s2 / 4) as byte,
      (s2 % 4 * 64 + s3) as byte ]
  }

  /**
   * The inverse of `Encode`: groups of four characters, a padded group only
   * at the end. Anything else is refused.
   */
  function Decode(s: string): Option<seq<byte>>
    decreases |s|
  {
    if |s| == 0 then Some([])
    else if |s| < 4 then None
    else
      var v0, v1, v2, v3 := SextetValue(s[0]), SextetValue(s[1]), SextetValue(s[2]), SextetValue(s[3]);
      if v0.None? || v1.None? then None
      else if |s| == 4 && s[2] == Pad && s[3] == Pad then
        Some([(v0.value * 4 + v1.value / 16) as byte])
      else if v2.None? then None
      else if |s| == 4 && s[3] == Pad then
        Some([(v0.value * 4 + v1.value / 16) as byte, (v1.value % 16 * 16 + v2.value / 4) as byte])
      else if v3.None? then None
      else
        match Decode(s[4..])
        case None => None
        case Some(rest) => Some(DecodeQuad(v0.value, v1.value, v2.value, v3.value) + rest)
  }

  /** The arithmetic of a whole group: the sextets of three bytes give them back. */
  lemma TripleArithmetic(b0: byte, b1: byte, b2: byte)
    ensures DecodeQuad(b0 as int / 4, b0 as int % 4 * 16 + b1 as int / 16,
                       b1 as int % 16 * 4 + b2 as int / 64, b2 as int % 64) == [b0, b1, b2]
  {
  }

  /** The arithmetic of a padded last group of one or two bytes. */
  lemma PaddedArithmetic(b0: int, b1: int)
    requires 0 <= b0 < 256 && 0 <= b1 < 256
    ensures (b0 / 4) * 4 + (b0 % 4 * 16) / 16 == b0
    ensures (b0 / 4) * 4 + (b0 % 4 * 16 + b1 / 16) / 16 == b0
    ensures (b0 % 4 * 16 + b1 / 16) % 16 * 16 + (b1 % 16 * 4) / 4 == b1
  {
  }

  /** A last group of one byte, padded with "==". */
  lemma DecodeOneByte(b0: byte)
    ensures Decode(Encode([b0])) == Some([b0])
  {
    var x0, x1 := b0 as int / 4, b0 as int % 4 * 16;
    SextetRoundTrip(x0);
    SextetRoundTrip(x1);
    PaddedArithmetic(b0 as int, 0);
    var s := [SextetChar(x0), SextetChar(x1), Pad, Pad];
    assert Encode([b0]) == s;
    assert Decode(s) == Some([b0]);
  }

  /** A last group of two bytes, padded with "=". */
  lemma DecodeTwoBytes(b0: byte, b1: byte)
    ensures Decode(Encode([b0, b1])) == Some([b0, b1])
  {
    var x0, x1, x2 := b0 as int / 4, b0 as int % 4 * 16 + b1 as int / 16, b1 as int % 16 * 4;
    SextetRoundTrip(x0);
    SextetRoundTrip(x1);
    SextetRoundTrip(x2);
    PaddedArithmetic(b0 as int, b1 as int);
    var s := [SextetChar(x0), SextetChar(x1), SextetChar(x2), Pad];
    assert Encode([b0, b1]) == s;
    assert Decode(s) == Some([b0, b1]);
  }

  /** Four characters of the alphabet in front of a rest decode group by group. */
  lemma DecodeStep(x0: Sextet, x1: Sextet, x2: Sextet, x3: Sextet, rest: string)
    ensures Decode([SextetChar(x0), SextetChar(x1), SextetChar(x2), SextetChar(x3)] + rest)
      == match Decode(rest)
         case None => None
         case Some(tail) => Some(DecodeQuad(x0, x1, x2, x3) + tail)
  {
    SextetRoundTrip(x0);
    SextetRoundTrip(x1);
    SextetRoundTrip(x2);
    SextetRoundTrip(x3);
    var s := [SextetChar(x0), SextetChar(x1), SextetChar(x2), SextetChar(x3)] + rest;
    assert s[4..] == rest;
  }

  /** A whole encoded group in front of a decodable rest. */
  lemma DecodeGroup(b0: byte, b1: byte, b2: byte, rest: string, tail: seq<byte>)
    requires Decode(rest) == Some(tail)
    ensures Decode(EncodeTriple(b0, b1, b2) + rest) == Some([b0, b1, b2] + tail)
  {
    var x0, x1 := b0 as int / 4, b0 as int % 4 * 16 + b1 as int / 16;
    var x2, x3 := b1 as int % 16 * 4 + b2 as int / 64, b2 as int % 64;
    DecodeStep(x0, x1, x2, x3, rest);
    TripleArithmetic(b0, b1, b2);
  }

  /** The encoding of three or more bytes starts with the group of the first three. */
  lemma EncodeFirstGroup(bytes: seq<byte>)
    requires |bytes| >= 3
    ensures Encode(bytes) == EncodeTriple(bytes[0], bytes[1], bytes[2]) + Encode(bytes[3..])
  {
  }

  /** A sequence of three or more bytes is its first three in front of the rest. */
  lemma FirstThree(bytes: seq<byte>)
    requires |bytes| >= 3
    ensures bytes == [bytes[0], bytes[1], bytes[2]] + bytes[3..]
  {
  }

  /** Decoding the encoding of any bytes gives those bytes back. */
  lemma {:induction false} DecodeEncode(bytes: seq<byte>)
    ensures Decode(Encode(bytes)) == Some(bytes)
  {
    if |bytes| >= 3 {
      DecodeEncode(bytes[3..]);
      EncodeFirstGroup(bytes);
      FirstThree(bytes);
      DecodeGroup(bytes[0], bytes[1], bytes[2], Encode(bytes[3..]), bytes[3..]);
    } else if |bytes| == 2 {
      assert bytes == [bytes[0], bytes[1]];
      DecodeTwoBytes(bytes[0], bytes[1]);
    } else if |bytes| == 1 {
      assert bytes == [bytes[0]];
      DecodeOneByte(bytes[0]);
    }
  }

  /** Only characters of the alphabet, and '=' only in the last two places. */
  predicate PaddedAlphabet(s: string) {
    forall k :: 0 <= k < |s| ==> SextetValue(s[k]).Some? || (s[k] == Pad && k >= |s| - 2)
  }

  /** The four characters of a whole group are all in the alphabet. */
  lemma TripleAlphabet(b0: byte, b1: byte, b2: byte)
    ensures forall k :: 0 <= k < 4 ==> SextetValue(EncodeTriple(b0, b1, b2)[k]).Some?
  {
    SextetRoundTrip(b0 as int / 4);
    SextetRoundTrip(b0 as int % 4 * 16 + b1 as int / 16);
    SextetRoundTrip(b1 as int % 16 * 4 + b2 as int / 64);
    SextetRoundTrip(b2 as int % 64);
  }

  /** Every encoding is made of the alphabet, padded at the end only. */
  lemma {:induction false} EncodeAlphabet(bytes: seq<byte>)
    ensures PaddedAlphabet(Encode(bytes))
  {
    if |bytes| >= 3 {
      var head, rest := EncodeTriple(bytes[0], bytes[1], bytes[2]), Encode(bytes[3..]);
      EncodeAlphabet(bytes[3..]);
      TripleAlphabet(bytes[0], bytes[1], bytes[2]);
      var s := Encode(bytes);
      assert s == head + rest;
      forall k | 0 <= k < |s|
        ensures SextetValue(s[k]).Some? || (s[k] == Pad && k >= |s| - 2)
      {
        if k < 4 {
          assert s[k] == head[k];
        } else {
          assert s[k] == rest[k - 4];
        }
      }
    } else if |bytes| == 2 {
      SextetRoundTrip(bytes[0] as int / 4);
      SextetRoundTrip(bytes[0] as int % 4 * 16 + bytes[1] as int / 16);
      SextetRoundTrip(bytes[1] as int % 16 * 4);
    } else if |bytes| == 1 {
      SextetRoundTrip(bytes[0] as int / 4);
      SextetRoundTrip(bytes[0] as int % 4 * 16);
    }
  }

  /** What goes wrong in `btoa`: a character above U+00FF. */
  datatype DomError = InvalidCharacterError

  /**
   * `btoa(data)`: refuses a string that is not a binary string and otherwise
   * encodes that string's bytes.
   */
  function Btoa(data: string): (r: Result<string, DomError>)
    ensures r.Success? <==> IsBinaryString(data)
    ensures r.Success? ==> Decode(r.value) == Some(CharCodes(data))
  {
    if IsBinaryString(data) then
      DecodeEncode(CharCodes(data));
      Success(Encode(CharCodes(data)))
    else Failure(InvalidCharacterError)
  }
}
