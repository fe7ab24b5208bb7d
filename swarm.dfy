/** The swarm (swarm.go): its address string, the registry of connected peers
    keyed by identity, the decision whether and where to dial a discovered
    address, and what inbound and outbound connections store. Discovery,
    dialing and accepting run as goroutines in the program; here they are
    sequential steps, and the network is an oracle. */
module Swarms {
  import opened Wrappers
  import opened Bytes
  import opened Seqs
  import opened Strings
  import opened Peers
  import Base58
  import Crypto
  import Mainline
  import InfoHashes

  const Version: string := "biton0"
  const NetworkMagicMain: string := ""
  const NetworkMagicTest: string := "test"
  const SwarmGlobalSeed: string := ""
  const SwarmGlobalPath: string := ""

  /** The host a hairpin address is rewritten to. */
  const Loopback: string := "127.0.0.1"

  /** The network name of the one transport, uTP. */
  const UtpNetwork: string := "utp"

  /** The part of the node's configuration the swarm reads (node.go). */
  datatype NodeInfo = NodeInfo(utpHost: string, utpPort: int, hairpinHost: string)

  /** What one connection gives once open: its handle, the peer key the noise
      socket reports (None when it cannot be extracted from the connection
      state) and whether the four-byte ping gets through. */
  datatype Handshake = Handshake(conn: Conn, peerKey: Option<seq<byte>>, pingOk: bool)

  /** The network seen from `dial`: what dialing a target gives, None when the
      transport fails to connect. */
  type Network = PeerAddress -> Option<Handshake>

  datatype ConnError = HairpinSelf | UnknownTransport(network: string) | DialFailed | NoPeerKey | PingFailed

  /** Every entry is stored under its own peer's identity. */
  ghost predicate RegistryValid(peers: map<PeerID, Peer>)
  {
    forall id :: id in peers ==> peers[id].info.id == id
  }

  /** Some stored peer lists the address. */
  predicate Known(peers: map<PeerID, Peer>, addr: PeerAddress)
  {
    exists id :: id in peers && addr in peers[id].info.addresses
  }

  /** `storePeer` on the map: the entry under the peer's identity is replaced whole. */
  function Stored(peers: map<PeerID, Peer>, peer: Peer): map<PeerID, Peer>
  {
    peers[peer.info.id := peer]
  }

  lemma FieldsSplit(a: string, b: string, c: string, d: string)
    requires ':' !in a && ':' !in b && ':' !in c && ':' !in d
    ensures Split(a + ":" + (b + ":" + (c + ":" + d)), ':') == [a, b, c, d]
  {
    var cd := c + ":" + d;
    var bcd := b + ":" + cd;
    SplitNone(d, ':');
    SplitJoin(c, d, ':');
    SplitJoin(b, cd, ':');
    SplitJoin(a, bcd, ':');
  }

  /** Where `dial` connects to, before any network activity: an address on the
      hairpin host is refused when its port is the node's own uTP port and
      otherwise rewritten to the loopback host with the same port; then only the
      uTP transport is accepted. */
  function DialTarget(hairpinHost: string, utpPort: int, addr: PeerAddress): (r: Result<PeerAddress, ConnError>)
    ensures r == Failure(HairpinSelf) <==> SplitHostPort(addr.address) == (hairpinHost, Itoa(utpPort))
    ensures r.Failure? && r.error != HairpinSelf ==> r.error == UnknownTransport(addr.transport) && addr.transport != UtpNetwork
    ensures r.Success? ==> r.value.transport == addr.transport == UtpNetwork
    ensures r.Success? && SplitHostPort(addr.address).0 == hairpinHost ==>
      r.value.address == Loopback + ":" + SplitHostPort(addr.address).1
    ensures r.Success? && SplitHostPort(addr.address).0 != hairpinHost ==> r.value == addr
  {
    var (host, port) := SplitHostPort(addr.String());
    if host == hairpinHost && port == Itoa(utpPort) then Failure(HairpinSelf)
    else
      var target := if host == hairpinHost then addr.(address := Loopback + ":" + port) else addr;
      if target.Network() != UtpNetwork then Failure(UnknownTransport(target.Network())) else Success(target)
  }

  /** A target `dial` accepts is never the node's own port on the hairpin host,
      also after the rewrite. */
  lemma DialTargetNotSelf(hairpinHost: string, utpPort: int, addr: PeerAddress)
    ensures DialTarget(hairpinHost, utpPort, addr).Success? ==>
      SplitHostPort(DialTarget(hairpinHost, utpPort, addr).value.address) != (hairpinHost, Itoa(utpPort))
  {
    var s := addr.address;
    var (host, port) := SplitHostPort(s);
    var r := DialTarget(hairpinHost, utpPort, addr);
    if r.Success? && host == hairpinHost {
      SplitHostPortNoBrackets(s);
      SplitHostPortJoin(Loopback, port);
    }
  }

  /** Two different addresses can reach the same target: `dial` rewrites an
      address on the hairpin host to the loopback host with the same port, so
      it connects where the loopback address with that port connects. */
  lemma HairpinSharesTarget(hairpinHost: string, utpPort: int, port: string)
    requires ':' !in hairpinHost && '[' !in hairpinHost && ']' !in hairpinHost
    requires ':' !in port && '[' !in port && ']' !in port
    requires hairpinHost != Loopback && port != Itoa(utpPort)
    ensures PeerAddress(UtpNetwork, hairpinHost + ":" + port) != PeerAddress(UtpNetwork, Loopback + ":" + port)
    ensures DialTarget(hairpinHost, utpPort, PeerAddress(UtpNetwork, hairpinHost + ":" + port))
         == DialTarget(hairpinHost, utpPort, PeerAddress(UtpNetwork, Loopback + ":" + port))
         == Success(PeerAddress(UtpNetwork, Loopback + ":" + port))
  {
    SplitHostPortJoin(hairpinHost, port);
    SplitHostPortJoin(Loopback, port);
  }

  /** The whole outcome of `dial`. */
  function DialSpec(base58: Base58.Codec, nodeInfo: NodeInfo, network: Network, addr: PeerAddress): (r: Result<Peer, ConnError>)
    ensures r.Success? <==>
      && DialTarget(nodeInfo.hairpinHost, nodeInfo.utpPort, addr).Success?
      && var target := DialTarget(nodeInfo.hairpinHost, nodeInfo.utpPort, addr).value;
         network(target).Some? && network(target).value.peerKey.Some? && network(target).value.pingOk
    ensures r.Success? ==>
      var target := DialTarget(nodeInfo.hairpinHost, nodeInfo.utpPort, addr).value;
      && network(target).value.peerKey == Some(r.value.info.publicKey)
      && r.value.info.id == Crypto.Identity(base58, r.value.info.publicKey)
      && r.value.info.addresses == [target]
      && r.value.conn == network(target).value.conn
  {
    match DialTarget(nodeInfo.hairpinHost, nodeInfo.utpPort, addr)
    case Failure(e) => Failure(e)
    case Success(target) =>
      match network(target)
      case None => Failure(DialFailed)
      case Some(hs) =>
        match hs.peerKey
        case None => Failure(NoPeerKey)
        case Some(key) =>
          if !hs.pingOk then Failure(PingFailed)
          else Success(Peer(PeerInfo(Crypto.Identity(base58, key), key, [target]), hs.conn))
  }

  /** The whole outcome of `handleConnection`. */
  function InboundSpec(base58: Base58.Codec, hs: Handshake): (r: Result<Peer, ConnError>)
    ensures r.Success? <==> hs.peerKey.Some? && hs.pingOk
    ensures r.Success? ==>
      && hs.peerKey == Some(r.value.info.publicKey)
      && r.value.info.id == Crypto.Identity(base58, r.value.info.publicKey)
      && r.value.info.addresses == []
      && r.value.conn == hs.conn
    ensures r.Failure? ==> r.error == (if hs.peerKey.None? then NoPeerKey else PingFailed)
  {
    match hs.peerKey
    case None => Failure(NoPeerKey)
    case Some(key) =>
      if !hs.pingOk then Failure(PingFailed)
      else Success(Peer(PeerInfo(Crypto.Identity(base58, key), key, []), hs.conn))
  }

  /** The registry after the discovered addresses `addrs` are handled in order,
      and the addresses that were dialed: an address some stored peer already
      lists is skipped, any other is dialed and, on success, stored. */
  function Discover(base58: Base58.Codec, nodeInfo: NodeInfo, network: Network,
                    peers: map<PeerID, Peer>, addrs: seq<PeerAddress>): (map<PeerID, Peer>, seq<PeerAddress>)
  {
    if addrs == [] then (peers, [])
    else
      var (ps, attempts) := Discover(base58, nodeInfo, network, peers, addrs[..|addrs| - 1]);
      var addr := addrs[|addrs| - 1];
      if Known(ps, addr) then (ps, attempts)
      else
        match DialSpec(base58, nodeInfo, network, addr)
        case Success(p) => (Stored(ps, p), attempts + [addr])
        case Failure(_) => (ps, attempts + [addr])
  }

  /** Handling discovered addresses keeps the registry consistent, never drops
      a peer, and dials addresses in the order they came, each at most as often
      as it came. */
  lemma {:induction false} DiscoverInvariants(base58: Base58.Codec, nodeInfo: NodeInfo, network: Network,
                                              peers: map<PeerID, Peer>, addrs: seq<PeerAddress>)
    requires RegistryValid(peers)
    ensures RegistryValid(Discover(base58, nodeInfo, network, peers, addrs).0)
    ensures peers.Keys <= Discover(base58, nodeInfo, network, peers, addrs).0.Keys
    ensures IsSubsequence(Discover(base58, nodeInfo, network, peers, addrs).1, addrs)
  {
    if addrs != [] {
      var init := addrs[..|addrs| - 1];
      DiscoverInvariants(base58, nodeInfo, network, peers, init);
      var attempts := Discover(base58, nodeInfo, network, peers, init).1;
      var attempts' := Discover(base58, nodeInfo, network, peers, addrs).1;
      if attempts' == attempts {
        if attempts != [] {
          assert IsSubsequence(attempts, init);
        }
      } else {
        assert attempts' == attempts + [addrs[|addrs| - 1]];
        assert attempts'[..|attempts'| - 1] == attempts;
      }
    }
  }

  /** Inbound peers are stored with no address, replacing the entry a dial
      made: the address the dial stored is forgotten, so a later discovery of
      it dials again. */
  lemma InboundReplacesDialedAddress(base58: Base58.Codec, nodeInfo: NodeInfo, network: Network,
                                     peers: map<PeerID, Peer>, addr: PeerAddress, hs: Handshake)
    requires !Known(peers, addr)
    requires SplitHostPort(addr.address).0 != nodeInfo.hairpinHost
    requires DialSpec(base58, nodeInfo, network, addr).Success?
    requires InboundSpec(base58, hs).Success?
    requires InboundSpec(base58, hs).value.info.id == DialSpec(base58, nodeInfo, network, addr).value.info.id
    ensures Known(Stored(peers, DialSpec(base58, nodeInfo, network, addr).value), addr)
    ensures !Known(Stored(Stored(peers, DialSpec(base58, nodeInfo, network, addr).value), InboundSpec(base58, hs).value), addr)
  {
    var p := DialSpec(base58, nodeInfo, network, addr).value;
    assert addr in Stored(peers, p)[p.info.id].info.addresses;
  }

  class Swarm {
    const netMagic: string
    const swarmSeed: string
    const swarmPath: string
    const nodeInfo: NodeInfo
    const base58: Base58.Codec
    const mainlineDht: Mainline.MainlineDht
    var swarmPeers: map<PeerID, Peer>

    ghost predicate Valid()
      reads this
    {
      RegistryValid(swarmPeers)
    }

    /** `NewSwarm`: the main network, the given seed and path, no peers. */
    constructor (nodeInfo: NodeInfo, mainlineDht: Mainline.MainlineDht, base58: Base58.Codec,
                 swarmSeed: string, swarmPath: string)
      ensures Valid() && swarmPeers == map[]
      ensures netMagic == NetworkMagicMain && this.swarmSeed == swarmSeed && this.swarmPath == swarmPath
      ensures this.nodeInfo == nodeInfo && this.mainlineDht == mainlineDht && this.base58 == base58
      ensures swarmSeed == SwarmGlobalSeed && swarmPath == SwarmGlobalPath ==> Address() == "biton0:::"
    {
      this.netMagic := NetworkMagicMain;
      this.swarmSeed := swarmSeed;
      this.swarmPath := swarmPath;
      this.nodeInfo := nodeInfo;
      this.base58 := base58;
      this.mainlineDht := mainlineDht;
      this.swarmPeers := map[];
    }

    /** "version:network:path:seed"; when the three configurable fields have no
        colon, splitting at colons gives the four fields back. */
    function Address(): (r: string)
      ensures ':' !in netMagic && ':' !in swarmPath && ':' !in swarmSeed ==>
        Split(r, ':') == [Version, netMagic, swarmPath, swarmSeed]
    {
      var r := Version + ":" + (netMagic + ":" + (swarmPath + ":" + swarmSeed));
      if ':' in netMagic || ':' in swarmPath || ':' in swarmSeed then r
      else
        FieldsSplit(Version, netMagic, swarmPath, swarmSeed);
        r
    }

    /** `storePeer`: the peer replaces whatever was stored under its identity. */
    method StorePeer(peer: Peer)
      requires Valid()
      modifies this
      ensures Valid()
      ensures swarmPeers == Stored(old(swarmPeers), peer)
    {
      swarmPeers := swarmPeers[peer.info.id := peer];
    }

    /** `ListPeers`: the information of every stored peer, once each, in no particular order. */
    method ListPeers() returns (peers: seq<PeerInfo>)
      requires Valid()
      ensures |peers| == |swarmPeers|
      ensures forall i :: 0 <= i < |peers| ==> peers[i].id in swarmPeers && swarmPeers[peers[i].id].info == peers[i]
      ensures forall id :: id in swarmPeers ==> swarmPeers[id].info in peers
      ensures forall i, j :: 0 <= i < j < |peers| ==> peers[i].id != peers[j].id
    {
      peers := [];
      var ids := swarmPeers.Keys;
      while ids != {}
        invariant ids <= swarmPeers.Keys
        invariant |peers| + |ids| == |swarmPeers.Keys|
        invariant forall i :: 0 <= i < |peers| ==>
          peers[i].id in swarmPeers.Keys - ids && swarmPeers[peers[i].id].info == peers[i]
        invariant forall id :: id in swarmPeers.Keys - ids ==> swarmPeers[id].info in peers
        invariant forall i, j :: 0 <= i < j < |peers| ==> peers[i].id != peers[j].id
        decreases ids
      {
        var id :| id in ids;
        peers := peers + [swarmPeers[id].info];
        ids := ids - {id};
      }
    }

    /** The scan in `handleMainlineAddrs`: does some stored peer list the address? */
    method AddressKnown(addr: PeerAddress) returns (found: bool)
      ensures found <==> Known(swarmPeers, addr)
    {
      var ids := swarmPeers.Keys;
      while ids != {}
        invariant ids <= swarmPeers.Keys
        invariant forall id :: id in swarmPeers && id !in ids ==> addr !in swarmPeers[id].info.addresses
        decreases ids
      {
        var id :| id in ids;
        var has := swarmPeers[id].info.HasAddress(addr);
        if has {
          return true;
        }
        ids := ids - {id};
      }
      return false;
    }

    /** `dial`: the hairpin check and rewrite, the transport switch, the dial,
        the key extraction, the ping, and on success `storePeer`. Every failure
        leaves the registry as it was. */
    method Dial(addr: PeerAddress, network: Network) returns (r: Result<Peer, ConnError>)
      requires Valid()
      modifies this
      ensures Valid()
      ensures r == DialSpec(base58, nodeInfo, network, addr)
      ensures swarmPeers == if r.Success? then Stored(old(swarmPeers), r.value) else old(swarmPeers)
    {
      var target := addr;
      var (host, port) := SplitHostPort(target.String());
      if host == nodeInfo.hairpinHost {
        if port == Itoa(nodeInfo.utpPort) {
          return Failure(HairpinSelf);
        }
        target := target.(address := Loopback + ":" + port);
      }
      if target.Network() != UtpNetwork {
        return Failure(UnknownTransport(target.Network()));
      }
      var conn := network(target);
      if conn.None? {
        return Failure(DialFailed);
      }
      var hs := conn.value;
      if hs.peerKey.None? {
        return Failure(NoPeerKey);
      }
      var key := hs.peerKey.value;
      var peer := Peer(PeerInfo(Crypto.Identity(base58, key), key, [target]), hs.conn);
      if !hs.pingOk {
        return Failure(PingFailed);
      }
      StorePeer(peer);
      return Success(peer);
    }

    /** `handleConnection`: the key extraction, the ping read, and on success
        `storePeer` of a peer with no address. */
    method HandleConnection(hs: Handshake) returns (r: Result<Peer, ConnError>)
      requires Valid()
      modifies this
      ensures Valid()
      ensures r == InboundSpec(base58, hs)
      ensures r.Success? ==> r.value.info.addresses == [] && r.value.conn == hs.conn
      ensures swarmPeers == if r.Success? then Stored(old(swarmPeers), r.value) else old(swarmPeers)
    {
      if hs.peerKey.None? {
        return Failure(NoPeerKey);
      }
      var key := hs.peerKey.value;
      var peer := Peer(PeerInfo(Crypto.Identity(base58, key), key, []), hs.conn);
      if !hs.pingOk {
        return Failure(PingFailed);
      }
      StorePeer(peer);
      return Success(peer);
    }

    /** `handleMainlineAddrs` over the addresses the channel delivers: known
        addresses are skipped, the others dialed; dial failures are dropped. */
    method HandleMainlineAddrs(addrs: seq<PeerAddress>, network: Network) returns (attempts: seq<PeerAddress>)
      requires Valid()
      modifies this
      ensures Valid()
      ensures (swarmPeers, attempts) == Discover(base58, nodeInfo, network, old(swarmPeers), addrs)
    {
      attempts := [];
      for i := 0 to |addrs|
        invariant Valid()
        invariant (swarmPeers, attempts) == Discover(base58, nodeInfo, network, old(swarmPeers), addrs[..i])
      {
        var addr := addrs[i];
        assert addrs[..i + 1][..i] == addrs[..i];
        var found := AddressKnown(addr);
        if found {
          continue;
        }
        attempts := attempts + [addr];
        var _ := Dial(addr, network);
      }
      assert addrs[..|addrs|] == addrs;
    }

    /** `Bootstrap` for the one transport: look the swarm up in the DHT and
        handle every address found. */
    method Bootstrap(network: Network) returns (err: Option<string>, attempts: seq<PeerAddress>)
      requires Valid()
      modifies this
      ensures Valid()
      ensures mainlineDht.PeersFor(UtpNetwork, Address()).Failure? ==>
        err.Some? && attempts == [] && swarmPeers == old(swarmPeers)
      ensures mainlineDht.PeersFor(UtpNetwork, Address()).Success? ==>
        err == None &&
        (swarmPeers, attempts) == Discover(base58, nodeInfo, network, old(swarmPeers),
                                           mainlineDht.PeersFor(UtpNetwork, Address()).value)
    {
      var addrs := mainlineDht.GetPeers(UtpNetwork, Address());
      if addrs.Failure? {
        return Some("failed to get peers"), [];
      }
      attempts := HandleMainlineAddrs(addrs.value, network);
      err := None;
    }
  }

  /** In one bootstrap run no discovered address is handed to `dial` twice, and
      each one handed over is a uTP address the DHT returned. After the hairpin
      rewrite in `dial`, two of them can still connect to the same target
      (`HairpinSharesTarget`). */
  lemma BootstrapDialsEachAddressOnce(s: Swarm, network: Network, peers: map<PeerID, Peer>)
    requires RegistryValid(peers)
    requires s.mainlineDht.PeersFor(UtpNetwork, s.Address()).Success?
    ensures var found := s.mainlineDht.PeersFor(UtpNetwork, s.Address()).value;
            var attempts := Discover(s.base58, s.nodeInfo, network, peers, found).1;
            && NoDuplicates(attempts)
            && forall a :: a in attempts ==> a in found && a.transport == UtpNetwork
  {
    var dht := s.mainlineDht;
    var ih := InfoHashes.NewInfoHash(dht.blake, Mainline.InfoHashKey(UtpNetwork, s.Address()));
    var batches := dht.announce(ih, dht.utpPort).value;
    var found := Mainline.Emitted(UtpNetwork, dht.show, Mainline.Values(batches));
    assert found == dht.PeersFor(UtpNetwork, s.Address()).value;
    var attempts := Discover(s.base58, s.nodeInfo, network, peers, found).1;
    Mainline.EmittedDistinct(UtpNetwork, dht.show, Mainline.Values(batches));
    Mainline.EmittedOrigin(UtpNetwork, dht.show, Mainline.Values(batches));
    DiscoverInvariants(s.base58, s.nodeInfo, network, peers, found);
    SubsequenceNoDuplicates(attempts, found);
    forall a | a in attempts ensures a in found && a.transport == UtpNetwork {
      SubsequenceMembers(attempts, found, a);
    }
  }
}
