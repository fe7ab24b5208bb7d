# go-biton swarm formation, modelled in Dafny

go-biton lets nodes that share a *swarm address* find each other and connect.
A swarm address is `biton0:<network>:<path>:<seed>`. Each swarm has an
infohash in the BitTorrent Mainline DHT: the first 20 bytes of the BLAKE2b-256
digest of `<transport>/<swarm address>`. The node announces itself under that
infohash. It filters the peer addresses the DHT traversal returns, then dials
each address no connected peer already has. A noise handshake is followed by a
four-byte ping. Peers, dialed or accepted, are stored in a registry keyed by
their identity, which is the base58 text of their public key.

The model covers five files:

- peer.go: `Peers`, with the peer entities, the `HasAddress` scan and the
  `MergePeerInfo` loop.
- dht_mainline.go: `Mainline`, with the DHT node ID and the infohash key, plus
  the `GetPeers` filter over the traversal's responses.
- swarm.go: `Swarms`. The `Swarm` class holds the registry as a `map` field.
  Its methods cover the swarm address, `ListPeers`, the discovery loop, `dial`,
  `handleConnection` and `storePeer`.
- crypto.go: `Crypto`. The `KeyPair` class has base58 marshalling and the
  half-and-half split; identities live here too.
- infohash.go: `InfoHashes`, with the infohash and its hex and base58 texts.

Where the source works by loops and in-place updates, the model does the same.
It uses methods with loop invariants and a class whose methods `modify` it.
Most such methods are proved equal to a pure function, and the lemmas are
proved about those functions. `ListPeers`, whose result order the source
leaves free, is described by properties of its result instead.

Code outside the five files enters as parameters, so that nothing is assumed
about it:

- the base58 codec is a pair of functions, `Base58.Codec`;
- BLAKE2b-256 is a function to 32-byte digests;
- `krpc.NodeAddr.String` is a function;
- the DHT traversal is a function from infohash and port to its responses;
- the network seen from `dial` maps a target to what the connection gives: a
  handle, the peer key if it can be extracted, and whether the ping gets
  through.

Results that need base58 to round-trip take `Base58.Inverts(codec)` as a
hypothesis. It says decoding undoes encoding for non-empty byte strings.

Helper modules model the Go library calls the core makes, plus what the
proofs need to read texts back:

- `Bytes`: UTF-8 (RFC 3629). A Go string is a byte string and `[]byte(s)`
  copies its bytes; the model covers strings that hold valid UTF-8 text, whose
  bytes are that text's encoding.
- `Hex`: `hex.EncodeToString`.
- `Strings`: `fmt`'s `%d` and `net.SplitHostPort` for unbracketed hosts, which
  `dial` calls. `Cut` and `Split` are not called by the core; they state that
  the infohash key and the swarm address read back into their parts.
- `Seqs`: duplicate-freedom and subsequences.
- `Wrappers`: `Option` and `Result`.

The registry keeps one entry per identity. `storePeer` replaces the stored peer
whole; it does not merge address lists with `MergePeerInfo`. The model follows
the code (swarm.go:326-331). One consequence is proved in
`Swarms.InboundReplacesDialedAddress`: after an inbound connection from a peer
that was dialed, the registry no longer lists the dialed address, so a later
discovery of that address dials it again.

## Model

| member | source | states |
|---|---|---|
| Peers.PeerInfo.HasAddress | peer.go:50-57 | Finds the address exactly when some entry of the address list equals it; the loop returns early on the first match. |
| Peers.NewPeerAddress | peer.go:59-64 | The constructed address reports the given transport as its network and the given address as its text. |
| Peers.AccessorsRebuild | peer.go:42-48 | `Network` and `String` give back the transport and the text the address was built from. |
| Peers.AddressEquality | peer.go:42-57 | Two addresses are equal exactly when both their networks and their texts agree. |
| Peers.MergePeerInfo | peer.go:28-40 | The merge keeps the first info's identity and key. Its addresses are the left fold that appends each address of the second list not already present. |
| Peers.MergeKeepsPrefix | peer.go:29-37 | The first info's addresses stay at the front, unchanged and in order. |
| Peers.MergeMembers | peer.go:34-38 | An address is in the merge exactly when it is in either input. |
| Peers.MergeNoDuplicates | peer.go:34-38 | Merging into a duplicate-free list gives a duplicate-free list. |
| Peers.MergeAbsorbed | peer.go:34-38 | When every address of the second list is already present, the merge returns the first list unchanged. |
| Peers.MergeSelf | peer.go:28-40 | Merging an info's addresses with themselves changes nothing. |
| Peers.MergeSnoc | peer.go:34-37 | One more address on the second list appends it to the result exactly when it is not already there. |
| Peers.MergeAppendsNewAddresses | peer.go:34-38 | The merge is the first list followed by the second list's new addresses, each at its first occurrence, in order. |
| Mainline.Copy | dht_mainline.go:27-28 | Go's `copy` into a slice of the array: it copies the shorter length, returns that count, and leaves the other bytes alone. |
| Mainline.PrefixBytes | dht_mainline.go:13 | The UTF-8 bytes of "-WW0102-" are its eight characters, one byte each. |
| Mainline.NewMainlineNodeID | dht_mainline.go:25-30 | The ID is 20 bytes: the bytes of "-WW0102-", then the public key's first twelve bytes, then zeros if the key is shorter. |
| Mainline.InfoHashKey | dht_mainline.go:56 | The key is the transport, '/', then the swarm address. When the transport has no '/', cutting at the first '/' gives both back. |
| Mainline.FilterBatch | dht_mainline.go:127-145 | The loop over one response's values extends the seen set and the output exactly as the reference filter does for those values. |
| Mainline.FilterPeers | dht_mainline.go:104-147 | The nested loop over responses and values gives exactly the reference filter's output. That filter drops seen texts and port-1 values and marks emitted texts seen. |
| Mainline.SeenKeysMembers | dht_mainline.go:129-144 | A text is marked seen exactly when some earlier value has that text and a port other than 1. |
| Mainline.EmittedOrigin | dht_mainline.go:134-142 | Every address sent carries the transport and the text of some value with a port other than 1. |
| Mainline.EmittedKeys | dht_mainline.go:138-144 | The texts sent are exactly the texts marked seen. |
| Mainline.EmittedDistinct | dht_mainline.go:129-144 | No two addresses sent share a text, so the output has no duplicates. |
| Mainline.EmittedOnce | dht_mainline.go:127-145 | Every value with a port other than 1 is sent exactly once, whatever its repeats. |
| Mainline.FirstOccurrence | dht_mainline.go:129-136 | A value is sent exactly when its port is not 1 and no earlier value with a port other than 1 has its text. |
| Mainline.EmittedSubsequence | dht_mainline.go:127-145 | The output keeps the traversal's order: it is a subsequence of all values stamped with the transport. |
| Mainline.MainlineDht.GetPeers | dht_mainline.go:54-151 | Announces under the infohash of the key. A failed traversal is an error; otherwise the result is the filtered values, duplicate-free and stamped with the transport. |
| InfoHashes.NewInfoHash | infohash.go:24-29 | Byte i of the infohash is byte i of the BLAKE2b-256 digest of the string's UTF-8 bytes, for i below 20. |
| InfoHashes.NewInfoHashCollision | infohash.go:24-29 | Two different strings with the same infohash have different UTF-8 bytes whose digests agree on the first 20 bytes. |
| InfoHashes.HexString | infohash.go:12-14 | The text is 40 lower-case hex digits, high nibble first, and hex-decodes back to the infohash. |
| InfoHashes.Base58String | infohash.go:16-18 | When the codec round-trips, the text base58-decodes back to the infohash. |
| InfoHashes.String | infohash.go:20-22 | The default text is the hex text, which decodes back to the infohash. |
| Bytes.Utf8RoundTrip | infohash.go:25 | The UTF-8 bytes of a string decode back to the string. |
| Bytes.Utf8Injective | infohash.go:25 | Different strings have different UTF-8 bytes. |
| Bytes.Utf8Ascii | dht_mainline.go:27 | An ASCII string's bytes are its characters, one byte each. |
| Hex.EncodeLayout | infohash.go:13 | The hex text has two lower-case alphabet characters per byte, high nibble first. |
| Hex.RoundTrip | infohash.go:13 | Hex decoding undoes hex encoding for every byte string. |
| Strings.ItoaRoundTrip | swarm.go:246 | The decimal text of an integer parses back to it. |
| Strings.CutJoin | dht_mainline.go:56 | Cutting `a + sep + b` at the first `sep` gives `a` and `b` back when `sep` is not in `a`. |
| Strings.SplitHostPort | swarm.go:243 | An accepted `host:port` is split at its one colon into two colon-free parts; an input Go rejects gives an empty host and port. |
| Strings.SplitHostPortJoin | swarm.go:243 | Host and port without colons or brackets, joined by ':', split back into themselves. |
| Crypto.SplitKeyPair | crypto.go:61-62 | The two halves concatenate to the decoded bytes. The public half has half the length, rounded down; the private half is as long or one byte longer. |
| Crypto.SplitRestores | crypto.go:46-65 | Splitting a pair's concatenation gives the pair back exactly when its private half is as long as its public half or one byte longer. |
| Crypto.Identity | crypto.go:74-76 | When the codec round-trips, a non-empty key's identity base58-decodes back to the key. |
| Crypto.IdentityInjective | crypto.go:74-76 | Different non-empty keys never share an identity. |
| Crypto.KeyPair.constructor | crypto.go:12-16 | The key pair literal holds the two given halves. |
| Crypto.KeyPair.Zero | crypto.go:33 | The zero key pair has two empty halves. |
| Crypto.KeyPair.DHKey | crypto.go:67-72 | The DH key is both halves, unchanged. |
| Crypto.KeyPair.MarshalText | crypto.go:46-53 | When the codec round-trips and the pair is non-empty, the text decodes to public followed by private. |
| Crypto.KeyPair.UnmarshalText | crypto.go:55-65 | A decode failure reports "failed to decode base58" and leaves the pair as it was. Otherwise the pair becomes the half-and-half split of the decoded bytes. |
| Crypto.NewKeypairFromBase58 | crypto.go:32-36 | A fresh pair: the split of the decoded bytes, or empty with the decode error. |
| Crypto.KeyPairBase58RoundTrip | crypto_test.go:9-26 | Marshalling a pair with equal, non-empty halves and unmarshalling into a zero pair gives both halves back with no error. |
| Swarms.DialTarget | swarm.go:243-260 | Refuses exactly the node's own uTP port on the hairpin host. Other hairpin addresses become 127.0.0.1 with the same port; other addresses are kept. Only the "utp" transport is accepted, otherwise "unknown transport". |
| Swarms.DialTargetNotSelf | swarm.go:243-251 | An accepted target, after the rewrite, never splits into the hairpin host and the node's own port. |
| Swarms.HairpinSharesTarget | swarm.go:243-251 | An address on the hairpin host and the loopback address with the same port are different addresses, yet `dial` connects both to the loopback one. |
| Swarms.DialSpec | swarm.go:235-324 | A dial succeeds exactly when the target is accepted, the network connects, the peer key is extracted and the ping goes through. The peer is named by its key's identity, with the target as its one address. |
| Swarms.InboundSpec | swarm.go:197-233 | An inbound connection succeeds exactly when the key is extracted and the ping is read. The peer is named by its key's identity, with no addresses. Otherwise the first failing step is the error. |
| Swarms.DiscoverInvariants | swarm.go:117-151 | Handling discovered addresses keeps every entry under its own identity and never removes a peer. Dials follow discovery order; each address is dialed at most as often as discovered. |
| Swarms.InboundReplacesDialedAddress | swarm.go:326-331 | A dialed, previously unknown address is known after the dial. It is no longer known once an inbound connection from the same identity is stored. |
| Swarms.BootstrapDialsEachAddressOnce | swarm.go:84-151 | In one bootstrap run no discovered address is handed to `dial` twice. Every address handed over came from the DHT and is a uTP address. The known-address scan runs before the hairpin rewrite, so two of them can still reach the same target (`Swarms.HairpinSharesTarget`). |
| Swarms.Swarm.constructor | swarm.go:47-71 | The swarm starts on the main network with the given seed and path and an empty registry. With the global seed and path its address is "biton0:::". |
| Swarms.Swarm.Address | swarm.go:73-81 | With colon-free network, path and seed, splitting the address at ':' gives version, network, path and seed back. |
| Swarms.Swarm.StorePeer | swarm.go:326-331 | The entry under the peer's identity is replaced by the peer; nothing else changes. |
| Swarms.Swarm.ListPeers | swarm.go:106-115 | One info per stored peer, each equal to the stored one, every stored peer listed, no identity twice. |
| Swarms.Swarm.AddressKnown | swarm.go:123-133 | The scan finds the address exactly when some stored peer lists it. |
| Swarms.Swarm.Dial | swarm.go:235-324 | The outcome is `DialSpec`. The registry gains the peer on success and is unchanged on every failure. |
| Swarms.Swarm.HandleConnection | swarm.go:197-233 | The outcome is `InboundSpec`. The registry gains the address-less peer on success and is unchanged otherwise. |
| Swarms.Swarm.HandleMainlineAddrs | swarm.go:117-151 | The new registry and the dialed addresses are those of `Discover`: known addresses are skipped and the others dialed in order. |
| Swarms.Swarm.Bootstrap | swarm.go:84-104 | A failed lookup returns an error and changes nothing. Otherwise every address found for the "utp" transport goes through discovery. |

## Left out

- Concurrency: locks, goroutines, channels and contexts. `Bootstrap` feeds the discovered addresses straight into the discovery loop, in order; cancellation and timeouts are not modelled.
- Swarms.Swarm.Bootstrap: the transport list has one entry ("utp"), and the loop over it is written out for that entry.
- The network: transports, `Listen` and `handleListener` are not part of this model. A dial, an accepted connection, the noise handshake, the key extraction from the connection state, and the ping write or read are one oracle value per target, so two attempts at the same target in one run get the same outcome.
- Swarms.DialSpec: on a failed ping, `dial` returns the peer it built together with the error. The model returns only the error, since every caller drops the peer.
- Swarms.Swarm.constructor: the noise DH key copied from the node's key pair is not modelled; it only configures the handshake.
- Base58 and BLAKE2b-256 are parameters, as is the DHT traversal with `AnnouncePeer` on the node's uTP port. `NewMainlineDHT` and the DHT server are not part of this model.
- Crypto.KeyPair.MarshalText: round-trip facts are stated only for non-empty byte strings, because base58 decoding of the empty text is not relied on.
- NewKeypair is not modelled (randomness from `crypto/rand`), nor is `MarshalJSON` (JSON quoting of the text).
- Debug printing and logging are not modelled, including the `%x` print of the infohash.
- Strings.SplitHostPort: `net.SplitHostPort` is modelled for unbracketed hosts only. A bracketed IPv6 literal counts as malformed, which gives an empty host and port. This reaches `Swarms.DialTarget`: with the default empty hairpin host (node.go:21), the model takes "[::1]:7000" for a hairpin address and rewrites it to "127.0.0.1:", where Go splits off host "::1" and dials the address unchanged.
- Byte slices are values: aliasing between `Public`, `Private` and the decoded buffer is not modelled.
- InfoHashes.NewInfoHash: Go strings are byte strings; the model covers strings that hold valid UTF-8 text.
- Peers.MergePeerInfo: the result's address slice starts as `a.Addresses`, so `append` may write into the backing array of `a` when it has spare capacity. That sharing between the inputs and the result is not modelled; slices are values here, and nothing in the core calls `MergePeerInfo`.
