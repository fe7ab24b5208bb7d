/** The base58 codec the program takes from an external library. Its
    alphabet and arithmetic are not part of this model: a codec is any pair of
    functions, and what the model relies on is stated by `Inverts`. */
module Base58 {
  import opened Wrappers
  import opened Bytes

  datatype Codec = Codec(encode: seq<byte> -> string, decode: string -> Option<seq<byte>>)

  /** Decoding undoes encoding for every non-empty byte string. Nothing is
      assumed about the empty string. */
  ghost predicate Inverts(c: Codec)
  {
    forall x: seq<byte> :: |x| > 0 ==> c.decode(c.encode(x)) == Some(x)
  }

  /** A codec that inverts is one-to-one on non-empty inputs. */
  lemma EncodeInjective(c: Codec, x: seq<byte>, y: seq<byte>)
    requires Inverts(c)
    requires |x| > 0 && |y| > 0
    requires c.encode(x) == c.encode(y)
    ensures x == y
  {
    assert c.decode(c.encode(x)) == Some(x);
    assert c.decode(c.encode(y)) == Some(y);
  }
}
