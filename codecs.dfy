/**
 * Serialisation formats (bincode, CBOR through ciborium, serde_json) are
 * outside the model. Each is a pair of functions handed in by the caller:
 * encoding never fails, decoding may fail with the library's message.
 * Where a property needs decoding to undo encoding, it says so with
 * `RoundTrips`.
 */
module Codecs {
  import opened Wrappers
  import Utf8

  datatype Codec<!T> = Codec(encode: T -> seq<Utf8.byte>, decode: seq<Utf8.byte> -> Result<T, string>)

  /** Decoding undoes encoding. */
  ghost predicate RoundTrips<T(!new)>(c: Codec<T>)
  {
    forall x :: c.decode(c.encode(x)) == Ok(x)
  }
}
