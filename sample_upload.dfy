/**
 * The sample path of the sample picker: the fetched sample's bytes are
 * turned into a binary string chunk by chunk, 0x8000 bytes at a time, and
 * then handed to `btoa`.
 */
module SampleUpload {
  import opened BinaryString
  import opened Base64
  import opened FileUpload

  /** How many bytes one `String.fromCharCode(...chunk)` call takes at most. */
  const ChunkSize: nat := 0x8000

  function Min(a: int, b: int): int {
    if a <= b then a else b
  }

  /** The index range `[start, end)` of one `bytes.subarray(i, i + chunkSize)`. */
  datatype Range = Range(start: nat, end: nat)

  /** The ranges the loop visits from index `i` on, for a buffer of `n` bytes. */
  function ChunksFrom(n: nat, i: nat): seq<Range>
    decreases n - i
  {
    if i >= n then [] else [Range(i, Min(i + ChunkSize, n))] + ChunksFrom(n, i + ChunkSize)
  }

  /**
   * `arrayBufferToBase64`. The binary string handed to `btoa` and the ranges
   * of the chunks are returned as ghost results.
   */
  method ArrayBufferToBase64(buffer: array<byte>)
    returns (encoded: string, ghost binary: string, ghost chunks: seq<Range>)
    ensures binary == ReduceToBinary(buffer[..])
    ensures chunks == ChunksFrom(buffer.Length, 0)
    ensures encoded == UploadPayload(buffer[..])
  {
    var bytes := buffer;
    ghost var data := bytes[..];
    var text := "";
    chunks := [];
    var i := 0;
    while i < bytes.Length
      invariant i == |chunks| * ChunkSize
      invariant text == FromCharCodes(data[..Min(i, |data|)])
      invariant chunks + ChunksFrom(|data|, i) == ChunksFrom(|data|, 0)
      decreases bytes.Length - i
    {
      var end := Min(i + ChunkSize, bytes.Length);
      var chunk := bytes[i..end];
      assert chunk == data[i..end];
      ChunkStep(data, i, text, chunks);
      text := text + FromCharCodes(chunk);
      chunks := chunks + [Range(i, end)];
      i := i + ChunkSize;
    }
    assert data[..Min(i, |data|)] == data;
    binary := text;
    BinaryIsPayload(data);
    encoded := Btoa(text).value;
  }

  /**
   * One turn of the loop: the next chunk's characters extend the converted
   * prefix and its range extends the visited ones.
   */
  lemma ChunkStep(bytes: seq<byte>, i: nat, text: string, chunks: seq<Range>)
    requires i < |bytes|
    requires text == FromCharCodes(bytes[..i])
    requires chunks + ChunksFrom(|bytes|, i) == ChunksFrom(|bytes|, 0)
    ensures var end := Min(i + ChunkSize, |bytes|);
      && text + FromCharCodes(bytes[i..end]) == FromCharCodes(bytes[..end])
      && (chunks + [Range(i, end)]) + ChunksFrom(|bytes|, i + ChunkSize) == ChunksFrom(|bytes|, 0)
  {
    var end := Min(i + ChunkSize, |bytes|);
    FromCharCodesAppend(bytes[..i], bytes[i..end]);
    assert bytes[..i] + bytes[i..end] == bytes[..end];
    assert ChunksFrom(|bytes|, i) == [Range(i, end)] + ChunksFrom(|bytes|, i + ChunkSize);
  }

  /** The converted buffer is the fold of the page, and `btoa` of it is the upload payload. */
  lemma BinaryIsPayload(bytes: seq<byte>)
    ensures FromCharCodes(bytes) == ReduceToBinary(bytes)
    ensures Btoa(FromCharCodes(bytes)).Success?
    ensures Btoa(FromCharCodes(bytes)).value == UploadPayload(bytes)
  {
    ReduceIsFromCharCodes(bytes);
    FromCharCodesRoundTrip(bytes);
  }

  /**
   * The chunks tile the buffer: the `j`-th starts at `j * 0x8000`, ends where
   * the next starts or at the end of the buffer, holds at least one byte, and
   * only the last one may hold fewer than 0x8000.
   */
  lemma {:induction false} ChunksTile(n: nat, m: nat, j: nat)
    requires j < |ChunksFrom(n, m * ChunkSize)|
    ensures var c := ChunksFrom(n, m * ChunkSize)[j];
      && c.start == (m + j) * ChunkSize
      && c.end == Min((m + j + 1) * ChunkSize, n)
      && c.start < c.end
      && (j < |ChunksFrom(n, m * ChunkSize)| - 1 ==> c.end - c.start == ChunkSize)
    decreases j
  {
    var cs := ChunksFrom(n, m * ChunkSize);
    assert (m + 1) * ChunkSize == m * ChunkSize + ChunkSize;
    if j > 0 {
      ChunksTile(n, m + 1, j - 1);
      assert cs[j] == ChunksFrom(n, (m + 1) * ChunkSize)[j - 1];
    } else if |cs| > 1 {
      assert ChunksFrom(n, (m + 1) * ChunkSize) != [];
    }
  }

  /** The loop runs once per started block of 0x8000 bytes, so not at all for an empty buffer. */
  lemma {:induction false} ChunkCount(n: nat, m: nat)
    ensures |ChunksFrom(n, m * ChunkSize)| == if m * ChunkSize >= n then 0 else (n - m * ChunkSize + ChunkSize - 1) / ChunkSize
    decreases n - m * ChunkSize
  {
    assert (m + 1) * ChunkSize == m * ChunkSize + ChunkSize;
    if m * ChunkSize < n {
      ChunkCount(n, m + 1);
    }
  }
}
