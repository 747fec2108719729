/** Bounded decompression (crates/gamlastan/src/bindings/deflate.rs).  The
    DEFLATE codec itself is a parameter. */
module Deflate {
  import opened Wrappers
  import opened ByteStrings
  import opened BindingErrors

  const MAX_DECOMPRESSED_SIZE := 1024 * 1024
  const CHUNK_SIZE := 8192

  /** What a raw DEFLATE decoder delivers: the bytes, then end of stream or an
      error. */
  datatype Stream = Stream(data: Bytes, corrupt: bool)

  datatype Codec = Codec(compress: Bytes -> Result<Bytes, BindingError>, open: Bytes -> Stream)

  /** RFC 1951: decompressing a compressed text gives the text back. */
  ghost predicate Lawful(codec: Codec) {
    forall x: Bytes :: codec.compress(x).Ok? ==> codec.open(codec.compress(x).value) == Stream(x, false)
  }

  /** The bounded result, whatever chunks the reader hands out. */
  function Bounded(s: Stream): Result<Bytes, BindingError> {
    if |s.data| > MAX_DECOMPRESSED_SIZE then Err(MessageTooLarge)
    else if s.corrupt then Err(DeflateError)
    else Ok(s.data)
  }

  /** Reads the stream in chunks of any size the decoder chooses.  The buffer
      never grows past the limit by more than one chunk. */
  method DeflateDecompress(s: Stream) returns (r: Result<Bytes, BindingError>, ghost peak: nat)
    ensures r == Bounded(s)
    ensures r.Ok? <==> !s.corrupt && |s.data| <= 1_048_576
    ensures r.Ok? ==> r.value == s.data
    ensures |s.data| > 1_048_576 ==> r == Err(MessageTooLarge)
    ensures |s.data| <= 1_048_576 && s.corrupt ==> r == Err(DeflateError)
    ensures peak <= MAX_DECOMPRESSED_SIZE + CHUNK_SIZE
  {
    var result: Bytes := [];
    peak := 0;
    var at := 0;
    while true
      invariant at == |result| == peak <= MAX_DECOMPRESSED_SIZE && at <= |s.data|
      invariant result == s.data[..at]
      decreases |s.data| - at
    {
      if at == |s.data| {
        if s.corrupt {
          return Err(DeflateError), peak;
        }
        assert s.data[..at] == s.data;
        break;
      }
      var n :| 1 <= n <= CHUNK_SIZE && at + n <= |s.data|;
      result := result + s.data[at..at + n];
      at := at + n;
      peak := at;
      if |result| > MAX_DECOMPRESSED_SIZE {
        return Err(MessageTooLarge), peak;
      }
    }
    r := Ok(result);
  }
}
