/**
 * Bytes and "binary strings": strings whose every character has a code in
 * 0..255, one character per byte, as `String.fromCharCode` builds them and
 * as `btoa` expects them.
 */
module BinaryString {

  /** One element of a `Uint8Array`. */
  newtype byte = x: int | 0 <= x < 256

  /** `String.fromCharCode(b)` for a single byte. */
  function CodeUnit(b: byte): (c: char)
    ensures c as int == b as int
  {
    (b as int) as char
  }

  /** `String.fromCharCode(...codes)`: one character per argument, in order. */
  function FromCharCodes(codes: seq<byte>): string {
    seq(|codes|, k requires 0 <= k < |codes| => CodeUnit(codes[k]))
  }

  /** Every character fits in one byte, which is all `btoa` accepts. */
  predicate IsBinaryString(s: string) {
    forall k :: 0 <= k < |s| ==> s[k] as int < 256
  }

  /** The bytes a binary string stands for. */
  function CharCodes(s: string): seq<byte>
    requires IsBinaryString(s)
  {
    seq(|s|, k requires 0 <= k < |s| => s[k] as int as byte)
  }

  /**
   * One character per byte loses nothing: the string is a binary string and
   * gives back the very bytes it was built from.
   */
  lemma FromCharCodesRoundTrip(codes: seq<byte>)
    ensures IsBinaryString(FromCharCodes(codes))
    ensures CharCodes(FromCharCodes(codes)) == codes
  {
  }

  /** Conversely every binary string is built from its own char codes. */
  lemma CharCodesRoundTrip(s: string)
    requires IsBinaryString(s)
    ensures FromCharCodes(CharCodes(s)) == s
  {
    var t := FromCharCodes(CharCodes(s));
    assert forall k :: 0 <= k < |s| ==> t[k] as int == s[k] as int;
  }

  /** Converting the pieces of a byte sequence and joining the strings is converting the whole. */
  lemma FromCharCodesAppend(a: seq<byte>, b: seq<byte>)
    ensures FromCharCodes(a + b) == FromCharCodes(a) + FromCharCodes(b)
  {
  }
}
