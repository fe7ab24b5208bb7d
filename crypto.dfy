/** The node's key pair, its base58 text form and peer identities (crypto.go). */
module Crypto {
  import opened Wrappers
  import opened Bytes
  import Base58
  import opened Peers

  /** A key pair as a value (`noise.DHKey`). */
  datatype NoiseDHKey = NoiseDHKey(public: seq<byte>, private: seq<byte>)

  const DecodeError: string := "failed to decode base58"

  /** How `UnmarshalText` cuts decoded bytes: the first half, rounded down, is
      the public key and the rest the private key. */
  function SplitKeyPair(b: seq<byte>): (k: NoiseDHKey)
    ensures k.public + k.private == b
    ensures |k.public| == |b| / 2
    ensures |k.private| == |k.public| || |k.private| == |k.public| + 1
  {
    NoiseDHKey(b[..|b| / 2], b[|b| / 2..])
  }

  /** The cut restores a pair exactly when its private half is as long as its
      public half or one byte longer. */
  lemma SplitRestores(k: NoiseDHKey)
    ensures SplitKeyPair(k.public + k.private) == k
        <==> |k.private| == |k.public| || |k.private| == |k.public| + 1
  {
    var b := k.public + k.private;
    if |k.private| == |k.public| || |k.private| == |k.public| + 1 {
      assert |b| / 2 == |k.public|;
      assert b[..|b| / 2] == k.public && b[|b| / 2..] == k.private;
    } else {
      assert |SplitKeyPair(b).public| != |k.public|;
    }
  }

  /** `PublicKey.Identity`: the base58 text of the key. */
  function Identity(codec: Base58.Codec, key: seq<byte>): (id: PeerID)
    ensures Base58.Inverts(codec) && |key| > 0 ==> codec.decode(id) == Some(key)
  {
    codec.encode(key)
  }

  /** Different non-empty keys never share an identity, so the registry keeps
      at most one entry per key. */
  lemma IdentityInjective(codec: Base58.Codec, p: seq<byte>, q: seq<byte>)
    requires Base58.Inverts(codec)
    requires |p| > 0 && |q| > 0
    requires Identity(codec, p) == Identity(codec, q)
    ensures p == q
  {
    Base58.EncodeInjective(codec, p, q);
  }

  class KeyPair {
    var public: seq<byte>
    var private: seq<byte>

    /** The zero value `KeyPair{}`. */
    constructor Zero()
      ensures public == [] && private == []
    {
      public, private := [], [];
    }

    /** The literal `KeyPair{Public: public, Private: private}`. */
    constructor (public: seq<byte>, private: seq<byte>)
      ensures this.public == public && this.private == private
    {
      this.public, this.private := public, private;
    }

    /** `DHKey`: both halves, unchanged. */
    function DHKey(): (k: NoiseDHKey)
      reads this
      ensures k.public == public && k.private == private
    {
      NoiseDHKey(public, private)
    }

    /** `MarshalText`: the base58 text of `Public ++ Private`. It has no error case. */
    function MarshalText(codec: Base58.Codec): (text: string)
      reads this
      ensures Base58.Inverts(codec) && |public + private| > 0 ==> codec.decode(text) == Some(public + private)
    {
      codec.encode(public + private)
    }

    /** `UnmarshalText`: decodes the text and splits the bytes in half. On a
        decoding error the fields are left as they were. */
    method UnmarshalText(codec: Base58.Codec, text: string) returns (err: Option<string>)
      modifies this
      ensures codec.decode(text).None? ==> err == Some(DecodeError) && public == old(public) && private == old(private)
      ensures codec.decode(text).Some? ==> err == None && DHKey() == SplitKeyPair(codec.decode(text).value)
    {
      var decoded := codec.decode(text);
      if decoded.None? {
        return Some(DecodeError);
      }
      var b := decoded.value;
      public := b[..|b| / 2];
      private := b[|b| / 2..];
      return None;
    }
  }

  /** `NewKeypairFromBase58`: `UnmarshalText` applied to a zero key pair. */
  method NewKeypairFromBase58(codec: Base58.Codec, text: string) returns (kp: KeyPair, err: Option<string>)
    ensures fresh(kp)
    ensures codec.decode(text).None? ==> err == Some(DecodeError) && kp.DHKey() == NoiseDHKey([], [])
    ensures codec.decode(text).Some? ==> err == None && kp.DHKey() == SplitKeyPair(codec.decode(text).value)
  {
    kp := new KeyPair.Zero();
    err := kp.UnmarshalText(codec, text);
  }

  /** The key-pair text round trip: marshalling a pair whose halves have equal,
      non-zero length and unmarshalling the text into a fresh pair gives both
      halves back. */
  method KeyPairBase58RoundTrip(codec: Base58.Codec, pair: KeyPair) returns (err: Option<string>, restored: NoiseDHKey)
    requires Base58.Inverts(codec)
    requires |pair.public| == |pair.private| > 0
    ensures err == None && restored == pair.DHKey()
  {
    var text := pair.MarshalText(codec);
    var pair2 := new KeyPair.Zero();
    err := pair2.UnmarshalText(codec, text);
    SplitRestores(pair.DHKey());
    restored := pair2.DHKey();
  }
}
