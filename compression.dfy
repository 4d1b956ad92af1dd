/**
 * The compression envelope of package commons: one flag byte (0 = stored, 1 = zlib)
 * followed by the payload.
 */
module Compression {
  import opened Common

  /** zCompress: the zlib writer over a fresh buffer (foreign, may fail) */
  const ZCompress: seq<byte> -> Result<seq<byte>>

  /** zDecompress: the zlib reader drained to the end (foreign, may fail) */
  const ZDecompress: seq<byte> -> Result<seq<byte>>

  const StoredFlag: byte := 0
  const DeflatedFlag: byte := 1

  /** The law zlib is trusted to keep: whatever it compresses it decompresses back. */
  ghost predicate ZlibInverse() {
    forall d :: ZCompress(d).Success? ==> ZDecompress(ZCompress(d).value) == Success(d)
  }

  /**
   * Compress: the zlib form is used only when it is strictly smaller than the data;
   * otherwise the data itself is stored behind flag 0.
   */
  function Compress(data: seq<byte>): (r: Result<seq<byte>>)
    ensures ZCompress(data).Failure? <==> r.Failure?
    ensures r.Failure? ==> r.error == ZCompress(data).error
    ensures r.Success? ==> |r.value| >= 1 && (r.value[0] == StoredFlag || r.value[0] == DeflatedFlag)
    ensures r.Success? ==> |r.value| <= |data| + 1
    ensures r.Success? && r.value[0] == StoredFlag ==>
              r.value[1..] == data && |data| <= |ZCompress(data).value|
    ensures r.Success? && r.value[0] == DeflatedFlag ==>
              r.value[1..] == ZCompress(data).value && |r.value| <= |data|
  {
    match ZCompress(data)
    case Failure(e) => Failure(e)
    case Success(compressed) =>
      if |data| <= |compressed| then Success([StoredFlag] + data)
      else Success([DeflatedFlag] + compressed)
  }

  /**
   * Decompress: dispatches on the flag alone. Go indexes byte 0 unguarded, so a
   * non-empty input is the caller's obligation.
   */
  function Decompress(compressedBytes: seq<byte>): (r: Result<seq<byte>>)
    requires |compressedBytes| >= 1
    ensures compressedBytes[0] != DeflatedFlag ==> r == Success(compressedBytes[1..])
    ensures compressedBytes[0] == DeflatedFlag ==> r == ZDecompress(compressedBytes[1..])
  {
    var payload := compressedBytes[1..];
    if compressedBytes[0] == DeflatedFlag then ZDecompress(payload) else Success(payload)
  }

  /** Decompress undoes Compress whenever zlib is its own inverse. */
  lemma CompressRoundTrip(data: seq<byte>)
    requires ZlibInverse()
    requires Compress(data).Success?
    ensures Decompress(Compress(data).value) == Success(data)
  {
  }

  /** An input zlib cannot shrink is stored verbatim behind flag 0. */
  lemma IncompressibleIsStored(data: seq<byte>)
    requires ZCompress(data).Success? && |ZCompress(data).value| >= |data|
    ensures Compress(data) == Success([StoredFlag] + data)
    ensures Decompress(Compress(data).value) == Success(data)
  {
  }
}
