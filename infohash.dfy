/** The 20-byte DHT key derived from a text (infohash.go). */
module InfoHashes {
  import opened Wrappers
  import opened Bytes
  import Hex
  import Base58

  /** A BLAKE2b-256 digest (RFC 7693): 32 bytes. */
  type Digest = s: seq<byte> | |s| == 32 witness seq(32, _ => 0)

  /** BLAKE2b-256 over a byte string. Its rounds are not modelled: any function
      with 32-byte results can stand for it. */
  type Blake2b256 = seq<byte> -> Digest

  type InfoHash = s: seq<byte> | |s| == 20 witness seq(20, _ => 0)

  /** The first 20 bytes of the BLAKE2b-256 digest of the UTF-8 bytes of `s`. */
  function NewInfoHash(blake: Blake2b256, s: string): (ih: InfoHash)
    ensures forall i :: 0 <= i < 20 ==> ih[i] == blake(Utf8(s))[i]
  {
    blake(Utf8(s))[..20]
  }

  /** Two different texts share an infohash only when the truncated digest
      collides on two different byte strings: the text-to-bytes step never
      merges texts. */
  lemma NewInfoHashCollision(blake: Blake2b256, s: string, t: string)
    requires s != t
    requires NewInfoHash(blake, s) == NewInfoHash(blake, t)
    ensures Utf8(s) != Utf8(t)
    ensures blake(Utf8(s))[..20] == blake(Utf8(t))[..20]
  {
    if Utf8(s) == Utf8(t) {
      Utf8Injective(s, t);
    }
  }

  /** `HexString`: 40 lower-case hexadecimal digits that decode back to the infohash. */
  function HexString(ih: InfoHash): (s: string)
    ensures |s| == 40
    ensures forall i :: 0 <= i < |s| ==> s[i] in Hex.Alphabet
    ensures forall i :: 0 <= i < 20 ==> s[2 * i] == Hex.Alphabet[ih[i] / 16] && s[2 * i + 1] == Hex.Alphabet[ih[i] % 16]
    ensures Hex.Decode(s) == Some(ih)
  {
    Hex.RoundTrip(ih);
    Hex.EncodeLayout(ih);
    Hex.Encode(ih)
  }

  /** `Base58String`: text that the codec decodes back to the infohash. */
  function Base58String(codec: Base58.Codec, ih: InfoHash): (s: string)
    ensures Base58.Inverts(codec) ==> codec.decode(s) == Some(ih)
  {
    codec.encode(ih)
  }

  /** `String` is the hexadecimal form. */
  function String(ih: InfoHash): (s: string)
    ensures s == HexString(ih) && Hex.Decode(s) == Some(ih)
  {
    HexString(ih)
  }
}
