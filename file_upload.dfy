/**
 * The file-upload path of the result page: the bytes read from the chosen
 * file are folded, one `String.fromCharCode` per byte, into a binary string,
 * which `btoa` turns into the `audio_data` payload.
 */
module FileUpload {
  import opened Wrappers
  import opened BinaryString
  import opened Base64

  /** `bytes.reduce((data, byte) => data + String.fromCharCode(byte), "")`. */
  function ReduceToBinary(bytes: seq<byte>): (data: string)
    ensures |data| == |bytes|
    ensures forall k :: 0 <= k < |bytes| ==> data[k] as int == bytes[k] as int
  {
    if |bytes| == 0 then ""
    else ReduceToBinary(bytes[..|bytes| - 1]) + [CodeUnit(bytes[|bytes| - 1])]
  }

  /** The fold builds the same string as one `String.fromCharCode` over all bytes. */
  lemma ReduceIsFromCharCodes(bytes: seq<byte>)
    ensures ReduceToBinary(bytes) == FromCharCodes(bytes)
  {
    var a, b := ReduceToBinary(bytes), FromCharCodes(bytes);
    assert forall k :: 0 <= k < |a| ==> a[k] as int == b[k] as int;
  }

  /**
   * `btoa(<fold of the bytes>)`: the fold is always a binary string, so this
   * `btoa` call cannot throw, and the payload decodes back to the file's bytes.
   */
  function UploadPayload(bytes: seq<byte>): (payload: string)
    ensures Decode(payload) == Some(bytes)
  {
    var binary := ReduceToBinary(bytes);
    ReduceIsFromCharCodes(bytes);
    FromCharCodesRoundTrip(bytes);
    Btoa(binary).value
  }

  /** An empty file is sent as the empty string. */
  lemma EmptyFilePayload()
    ensures UploadPayload([]) == ""
  {
    FromCharCodesRoundTrip([]);
    assert CharCodes(ReduceToBinary([])) == [];
  }
}
