/** The Mainline DHT side of discovery (dht_mainline.go): the node ID the DHT
    server announces with, the infohash a swarm is looked up under, and the
    filter that turns the traversal's responses into a stream of fresh peer
    addresses. */
module Mainline {
  import opened Wrappers
  import opened Bytes
  import opened Seqs
  import opened Strings
  import opened Peers
  import opened InfoHashes

  const WebtorrentPeerIdPrefix: string := "-WW0102-"

  /** `krpc.NodeAddr`: an IP address and a port. */
  datatype NodeAddr = NodeAddr(ip: seq<byte>, port: int)

  /** An entry of a response's "nodes" list: a node's ID and address. */
  datatype KrpcNode = KrpcNode(id: seq<byte>, addr: NodeAddr)

  /** One response the traversal hands over. As BEP 5 describes get_peers,
      "values" are peers that hold the infohash and "nodes" are routing
      entries close to it. */
  datatype PeersValues = PeersValues(values: seq<NodeAddr>, nodes: seq<KrpcNode>)

  /** Go's built-in `copy(dst[at:], src)`: copies as many bytes as both sides
      have and returns that count. */
  method Copy(dst: array<byte>, at: nat, src: seq<byte>) returns (n: nat)
    requires at <= dst.Length
    modifies dst
    ensures n == if dst.Length - at < |src| then dst.Length - at else |src|
    ensures forall i :: 0 <= i < dst.Length ==> dst[i] == if at <= i < at + n then src[i - at] else old(dst[i])
  {
    n := if dst.Length - at < |src| then dst.Length - at else |src|;
    forall i | at <= i < at + n {
      dst[i] := src[i - at];
    }
  }

  /** The bytes `copy` takes from "-WW0102-"; `PrefixBytes` shows they are
      its UTF-8 bytes. */
  const WebtorrentPeerIdPrefixBytes: seq<byte> := [0x2D, 0x57, 0x57, 0x30, 0x31, 0x30, 0x32, 0x2D]

  /** The prefix is ASCII, so its bytes are its characters. */
  lemma PrefixBytes()
    ensures Utf8(WebtorrentPeerIdPrefix) == WebtorrentPeerIdPrefixBytes
    ensures forall i :: 0 <= i < 8 ==> WebtorrentPeerIdPrefixBytes[i] == WebtorrentPeerIdPrefix[i] as int
  {
    Utf8Ascii(WebtorrentPeerIdPrefix);
  }

  /** The DHT node ID: the eight bytes of "-WW0102-", then as much of the
      public key as fits in the remaining twelve bytes, then zeros. */
  method NewMainlineNodeID(pub: seq<byte>) returns (id: seq<byte>)
    ensures |id| == 20
    ensures id[..8] == WebtorrentPeerIdPrefixBytes
    ensures forall i :: 8 <= i < 20 ==> id[i] == if i - 8 < |pub| then pub[i - 8] else 0
  {
    var nodeID := new byte[20](_ => 0);
    var prefix := WebtorrentPeerIdPrefixBytes;
    var _ := Copy(nodeID, 0, prefix);
    assert forall i :: 8 <= i < 20 ==> nodeID[i] == 0;
    var _ := Copy(nodeID, 8, pub);
    id := nodeID[..];
    assert id[..8] == prefix;
  }

  /** The text a swarm's infohash is computed from: the transport, a slash and
      the swarm address. The transport can be read back from it. */
  function InfoHashKey(transport: string, swarmAddress: string): (key: string)
    ensures '/' !in transport ==> Cut(key, '/') == (transport, swarmAddress, true)
  {
    var key := transport + "/" + swarmAddress;
    if '/' in transport then key
    else
      CutJoin(transport, swarmAddress, '/');
      key
  }

  /** `krpc.NodeAddr.String`, which lives outside this model. */
  type AddrText = NodeAddr -> string

  /** The "values" of all responses, in order; "nodes" play no part. */
  function Values(batches: seq<PeersValues>): seq<NodeAddr>
  {
    if batches == [] then []
    else Values(batches[..|batches| - 1]) + batches[|batches| - 1].values
  }

  /** The keys the filter has marked as seen after `vals`: the text of every value whose port is not 1. */
  function SeenKeys(show: AddrText, vals: seq<NodeAddr>): set<string>
  {
    if vals == [] then {}
    else
      var v := vals[|vals| - 1];
      SeenKeys(show, vals[..|vals| - 1]) + (if v.port != 1 then {show(v)} else {})
  }

  /** What the filter sends for `vals`: a value passes when its port is not 1
      and its text has not been seen, and goes out stamped with the transport. */
  function Emitted(transport: string, show: AddrText, vals: seq<NodeAddr>): seq<PeerAddress>
  {
    if vals == [] then []
    else
      var init, v := vals[..|vals| - 1], vals[|vals| - 1];
      Emitted(transport, show, init)
        + (if v.port != 1 && show(v) !in SeenKeys(show, init) then [PeerAddress(transport, show(v))] else [])
  }

  /** Every value, stamped; the filter's output is a subsequence of this. */
  function Stamped(transport: string, show: AddrText, vals: seq<NodeAddr>): seq<PeerAddress>
  {
    seq(|vals|, i requires 0 <= i < |vals| => PeerAddress(transport, show(vals[i])))
  }

  lemma ValuesStep(batches: seq<PeersValues>, b: nat)
    requires b < |batches|
    ensures Values(batches[..b + 1]) == Values(batches[..b]) + batches[b].values
  {
    assert batches[..b + 1][..b] == batches[..b];
  }

  /** One more value: how the seen set and the output grow. */
  lemma FilterStep(transport: string, show: AddrText, before: seq<NodeAddr>, p: NodeAddr)
    ensures SeenKeys(show, before + [p]) == SeenKeys(show, before) + (if p.port != 1 then {show(p)} else {})
    ensures Emitted(transport, show, before + [p])
         == Emitted(transport, show, before)
            + (if p.port != 1 && show(p) !in SeenKeys(show, before) then [PeerAddress(transport, show(p))] else [])
  {
    assert (before + [p])[..|before|] == before;
  }

  /** The inner loop of `GetPeers`, over the values of one response: given
      the seen set and the output for the values `done` before it, it extends
      both to `done + values`. */
  method FilterBatch(transport: string, show: AddrText, ghost done: seq<NodeAddr>, values: seq<NodeAddr>,
                     seen0: set<string>, addrs0: seq<PeerAddress>)
    returns (seen: set<string>, addrs: seq<PeerAddress>)
    requires seen0 == SeenKeys(show, done) && addrs0 == Emitted(transport, show, done)
    ensures seen == SeenKeys(show, done + values) && addrs == Emitted(transport, show, done + values)
  {
    seen, addrs := seen0, addrs0;
    assert done + values[..0] == done;
    for i := 0 to |values|
      invariant seen == SeenKeys(show, done + values[..i])
      invariant addrs == Emitted(transport, show, done + values[..i])
    {
      var p := values[i];
      ghost var before := done + values[..i];
      assert done + values[..i + 1] == before + [p];
      FilterStep(transport, show, before, p);
      if show(p) in seen {
        continue;
      }
      if p.port == 1 {
        continue;
      }
      addrs := addrs + [NewPeerAddress(transport, show(p))];
      seen := seen + {show(p)};
    }
    assert values[..|values|] == values;
  }

  /** The loop inside `GetPeers`: walks the responses in order, skips values
      already seen and values on port 1, sends the rest and marks them seen. */
  method FilterPeers(transport: string, show: AddrText, batches: seq<PeersValues>) returns (addrs: seq<PeerAddress>)
    ensures addrs == Emitted(transport, show, Values(batches))
  {
    var seen: set<string> := {};
    addrs := [];
    for b := 0 to |batches|
      invariant seen == SeenKeys(show, Values(batches[..b]))
      invariant addrs == Emitted(transport, show, Values(batches[..b]))
    {
      var ps := batches[b];
      ValuesStep(batches, b);
      if |ps.values| == 0 {
        assert Values(batches[..b]) + ps.values == Values(batches[..b]);
        continue;
      }
      seen, addrs := FilterBatch(transport, show, Values(batches[..b]), ps.values, seen, addrs);
    }
    assert batches[..|batches|] == batches;
  }

  /** A key is seen exactly when some value with a port other than 1 has it. */
  lemma {:induction false} SeenKeysMembers(show: AddrText, vals: seq<NodeAddr>, key: string)
    ensures key in SeenKeys(show, vals) <==> exists j :: 0 <= j < |vals| && vals[j].port != 1 && show(vals[j]) == key
  {
    if vals != [] {
      var init := vals[..|vals| - 1];
      SeenKeysMembers(show, init, key);
      assert forall j :: 0 <= j < |init| ==> init[j] == vals[j];
    }
  }

  /** Every output carries the transport, and its address is the text of an
      input value whose port is not 1. */
  lemma {:induction false} EmittedOrigin(transport: string, show: AddrText, vals: seq<NodeAddr>)
    ensures forall k :: 0 <= k < |Emitted(transport, show, vals)| ==>
      Emitted(transport, show, vals)[k].transport == transport &&
      exists j :: 0 <= j < |vals| && vals[j].port != 1 && Emitted(transport, show, vals)[k].address == show(vals[j])
  {
    if vals != [] {
      var init, v := vals[..|vals| - 1], vals[|vals| - 1];
      assert vals == init + [v];
      FilterStep(transport, show, init, v);
      EmittedOrigin(transport, show, init);
      var out, prev := Emitted(transport, show, vals), Emitted(transport, show, init);
      forall k | 0 <= k < |out|
        ensures out[k].transport == transport
        ensures exists j :: 0 <= j < |vals| && vals[j].port != 1 && out[k].address == show(vals[j])
      {
        if k < |prev| {
          assert out[k] == prev[k];
          var j :| 0 <= j < |init| && init[j].port != 1 && prev[k].address == show(init[j]);
          assert vals[j] == init[j];
        } else {
          assert out[k] == PeerAddress(transport, show(v));
          assert vals[|vals| - 1] == v;
        }
      }
    }
  }

  /** The texts sent are exactly the keys marked seen. */
  lemma {:induction false} EmittedKeys(transport: string, show: AddrText, vals: seq<NodeAddr>)
    ensures forall key :: key in SeenKeys(show, vals) <==>
      exists k :: 0 <= k < |Emitted(transport, show, vals)| && Emitted(transport, show, vals)[k].address == key
  {
    if vals != [] {
      var init, v := vals[..|vals| - 1], vals[|vals| - 1];
      assert vals == init + [v];
      FilterStep(transport, show, init, v);
      EmittedKeys(transport, show, init);
      var out, prev := Emitted(transport, show, vals), Emitted(transport, show, init);
      forall key
        ensures key in SeenKeys(show, vals) <==> exists k :: 0 <= k < |out| && out[k].address == key
      {
        if key in SeenKeys(show, init) {
          var k :| 0 <= k < |prev| && prev[k].address == key;
          assert out[k] == prev[k];
        } else if v.port != 1 && key == show(v) {
          assert out[|out| - 1].address == key;
        } else {
          forall k | 0 <= k < |out|
            ensures out[k].address != key
          {
            if k < |prev| {
              assert out[k] == prev[k];
            }
          }
        }
      }
    }
  }

  /** No address text is sent twice in one run. */
  lemma {:induction false} EmittedDistinct(transport: string, show: AddrText, vals: seq<NodeAddr>)
    ensures forall i, j :: 0 <= i < j < |Emitted(transport, show, vals)| ==>
      Emitted(transport, show, vals)[i].address != Emitted(transport, show, vals)[j].address
    ensures NoDuplicates(Emitted(transport, show, vals))
  {
    if vals != [] {
      var init, v := vals[..|vals| - 1], vals[|vals| - 1];
      assert vals == init + [v];
      FilterStep(transport, show, init, v);
      EmittedDistinct(transport, show, init);
      EmittedKeys(transport, show, init);
      var out, prev := Emitted(transport, show, vals), Emitted(transport, show, init);
      forall i, j | 0 <= i < j < |out|
        ensures out[i].address != out[j].address
      {
        assert out[i] == prev[i];
        if j < |prev| {
          assert out[j] == prev[j];
        }
      }
    }
  }

  /** Every value whose port is not 1 is sent exactly once. */
  lemma EmittedOnce(transport: string, show: AddrText, vals: seq<NodeAddr>, j: nat)
    requires j < |vals| && vals[j].port != 1
    ensures exists k :: 0 <= k < |Emitted(transport, show, vals)| && Emitted(transport, show, vals)[k] == PeerAddress(transport, show(vals[j]))
    ensures forall k, k' :: 0 <= k < k' < |Emitted(transport, show, vals)| ==>
      !(Emitted(transport, show, vals)[k].address == show(vals[j]) == Emitted(transport, show, vals)[k'].address)
  {
    var out := Emitted(transport, show, vals);
    SeenKeysMembers(show, vals, show(vals[j]));
    EmittedOrigin(transport, show, vals);
    EmittedKeys(transport, show, vals);
    var k :| 0 <= k < |out| && out[k].address == show(vals[j]);
    assert out[k] == PeerAddress(transport, show(vals[j]));
    EmittedDistinct(transport, show, vals);
  }

  /** A value is sent only at the first occurrence of its text among values
      whose port is not 1. */
  lemma FirstOccurrence(show: AddrText, vals: seq<NodeAddr>, j: nat)
    requires j < |vals|
    ensures vals[j].port != 1 && show(vals[j]) !in SeenKeys(show, vals[..j])
        <==> vals[j].port != 1 && forall k :: 0 <= k < j && vals[k].port != 1 ==> show(vals[k]) != show(vals[j])
  {
    SeenKeysMembers(show, vals[..j], show(vals[j]));
  }

  /** The output keeps the order of the input: it is a subsequence of the stamped values. */
  lemma {:induction false} EmittedSubsequence(transport: string, show: AddrText, vals: seq<NodeAddr>)
    ensures IsSubsequence(Emitted(transport, show, vals), Stamped(transport, show, vals))
  {
    if vals != [] {
      var init := vals[..|vals| - 1];
      var out, all := Emitted(transport, show, vals), Stamped(transport, show, vals);
      EmittedSubsequence(transport, show, init);
      assert all[..|all| - 1] == Stamped(transport, show, init);
      if out != [] && out == Emitted(transport, show, init) {
        assert IsSubsequence(out, all[..|all| - 1]);
      } else if out != [] {
        assert out[..|out| - 1] == Emitted(transport, show, init);
      }
    }
  }

  /** The DHT handle: the port announced, the hash, the traversal and the
      rendering of node addresses, all external to the model. `announce`
      gives None when the traversal cannot be started, and otherwise the
      responses it hands over before it finishes. */
  datatype MainlineDht = MainlineDht(
    utpPort: int,
    blake: Blake2b256,
    announce: (InfoHash, int) -> Option<seq<PeersValues>>,
    show: AddrText)
  {
    /** The whole outcome of `GetPeers`. */
    function PeersFor(transport: string, swarmAddress: string): Result<seq<PeerAddress>, string>
    {
      match announce(NewInfoHash(blake, InfoHashKey(transport, swarmAddress)), utpPort)
      case None => Failure("failed to announce traversal")
      case Some(batches) => Success(Emitted(transport, show, Values(batches)))
    }

    /** Announces under the swarm's infohash and filters what the traversal returns. */
    method GetPeers(transport: string, swarmAddress: string) returns (r: Result<seq<PeerAddress>, string>)
      ensures r == PeersFor(transport, swarmAddress)
      ensures r.Success? ==> NoDuplicates(r.value)
      ensures r.Success? ==> forall a :: a in r.value ==> a.transport == transport
    {
      var ih := NewInfoHash(blake, InfoHashKey(transport, swarmAddress));
      var traversal := announce(ih, utpPort);
      if traversal.None? {
        return Failure("failed to announce traversal");
      }
      var addrs := FilterPeers(transport, show, traversal.value);
      EmittedDistinct(transport, show, Values(traversal.value));
      EmittedOrigin(transport, show, Values(traversal.value));
      return Success(addrs);
    }
  }
}
