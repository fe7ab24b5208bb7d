/** Peer records and the ordered address set of a peer (peer.go). */
module Peers {
  import opened Bytes
  import opened Seqs

  /** A peer's identity: the base58 text of its public key. */
  type PeerID = string

  /** A network address together with the transport that reaches it. Two
      addresses are equal when both fields are. */
  datatype PeerAddress = PeerAddress(transport: string, address: string)
  {
    function Network(): string { transport }

    function String(): string { address }
  }

  /** The handle of a live connection; connections themselves are not modelled. */
  datatype Conn = Conn(handle: nat)

  datatype PeerInfo = PeerInfo(id: PeerID, publicKey: seq<byte>, addresses: seq<PeerAddress>)
  {
    /** Scans the addresses and stops at the first one equal to `x`. */
    method HasAddress(x: PeerAddress) returns (found: bool)
      ensures found <==> exists i :: 0 <= i < |addresses| && addresses[i] == x
    {
      for i := 0 to |addresses|
        invariant forall j :: 0 <= j < i ==> addresses[j] != x
      {
        if addresses[i] == x {
          return true;
        }
      }
      return false;
    }
  }

  datatype Peer = Peer(info: PeerInfo, conn: Conn)

  function NewPeerAddress(transport: string, address: string): (a: PeerAddress)
    ensures a.Network() == transport && a.String() == address
  {
    PeerAddress(transport, address)
  }

  /** The two accessors give back what `NewPeerAddress` was built from. */
  lemma AccessorsRebuild(a: PeerAddress)
    ensures NewPeerAddress(a.Network(), a.String()) == a
  {
  }

  /** The `==` that `HasAddress` applies: two addresses are equal exactly when
      both their network and their text agree. */
  lemma AddressEquality(x: PeerAddress, y: PeerAddress)
    ensures x == y <==> x.Network() == y.Network() && x.String() == y.String()
  {
  }

  /** The addresses `MergePeerInfo` ends with: `bs` is walked in order and each
      address not yet in the growing list is appended. */
  function MergeAddresses(acc: seq<PeerAddress>, bs: seq<PeerAddress>): seq<PeerAddress>
    decreases |bs|
  {
    if bs == [] then acc
    else MergeAddresses(if bs[0] in acc then acc else acc + [bs[0]], bs[1..])
  }

  /** The addresses of `bs` that `acc` lacks, each at its first occurrence in
      `bs`, in the order of `bs`. */
  function NewAddresses(acc: seq<PeerAddress>, bs: seq<PeerAddress>): seq<PeerAddress>
    decreases |bs|
  {
    if bs == [] then []
    else
      var init, last := bs[..|bs| - 1], bs[|bs| - 1];
      NewAddresses(acc, init) + (if last in acc || last in init then [] else [last])
  }

  /** Merges the addresses of `b` into `a`; the identity and key of `a` are kept. */
  method MergePeerInfo(a: PeerInfo, b: PeerInfo) returns (c: PeerInfo)
    ensures c.id == a.id && c.publicKey == a.publicKey
    ensures c.addresses == MergeAddresses(a.addresses, b.addresses)
  {
    c := PeerInfo(a.id, a.publicKey, a.addresses);
    for i := 0 to |b.addresses|
      invariant c.id == a.id && c.publicKey == a.publicKey
      invariant MergeAddresses(c.addresses, b.addresses[i..]) == MergeAddresses(a.addresses, b.addresses)
    {
      var addr := b.addresses[i];
      assert b.addresses[i..][0] == addr && b.addresses[i..][1..] == b.addresses[i + 1..];
      var has := c.HasAddress(addr);
      if !has {
        c := c.(addresses := c.addresses + [addr]);
      }
    }
    assert b.addresses[|b.addresses|..] == [];
  }

  /** The existing addresses stay in front, in their order. */
  lemma {:induction false} MergeKeepsPrefix(acc: seq<PeerAddress>, bs: seq<PeerAddress>)
    ensures acc <= MergeAddresses(acc, bs)
    decreases |bs|
  {
    if bs != [] {
      var acc' := if bs[0] in acc then acc else acc + [bs[0]];
      MergeKeepsPrefix(acc', bs[1..]);
      assert acc <= acc';
    }
  }

  /** An address is in the merge exactly when it is in one of the two lists. */
  lemma {:induction false} MergeMembers(acc: seq<PeerAddress>, bs: seq<PeerAddress>, x: PeerAddress)
    ensures x in MergeAddresses(acc, bs) <==> x in acc || x in bs
    decreases |bs|
  {
    if bs != [] {
      var acc' := if bs[0] in acc then acc else acc + [bs[0]];
      MergeMembers(acc', bs[1..], x);
      assert bs == [bs[0]] + bs[1..];
    }
  }

  /** Merging never introduces a duplicate, even when `bs` repeats itself. */
  lemma {:induction false} MergeNoDuplicates(acc: seq<PeerAddress>, bs: seq<PeerAddress>)
    requires NoDuplicates(acc)
    ensures NoDuplicates(MergeAddresses(acc, bs))
    decreases |bs|
  {
    if bs != [] {
      var acc' := if bs[0] in acc then acc else acc + [bs[0]];
      MergeNoDuplicates(acc', bs[1..]);
    }
  }

  /** When every address of `bs` is already known, the merge changes nothing. */
  lemma {:induction false} MergeAbsorbed(acc: seq<PeerAddress>, bs: seq<PeerAddress>)
    requires forall x :: x in bs ==> x in acc
    ensures MergeAddresses(acc, bs) == acc
    decreases |bs|
  {
    if bs != [] {
      assert bs[0] in acc;
      MergeAbsorbed(acc, bs[1..]);
    }
  }

  /** Merging a peer's addresses with themselves leaves them as they are. */
  lemma MergeSelf(info: PeerInfo)
    ensures MergeAddresses(info.addresses, info.addresses) == info.addresses
  {
    MergeAbsorbed(info.addresses, info.addresses);
  }

  lemma {:induction false} MergeSnoc(acc: seq<PeerAddress>, bs: seq<PeerAddress>, x: PeerAddress)
    ensures var m := MergeAddresses(acc, bs);
            MergeAddresses(acc, bs + [x]) == if x in m then m else m + [x]
    decreases |bs|
  {
    if bs == [] {
      assert MergeAddresses(acc, [x]) == MergeAddresses(if x in acc then acc else acc + [x], []);
    } else {
      var acc' := if bs[0] in acc then acc else acc + [bs[0]];
      assert (bs + [x])[0] == bs[0] && (bs + [x])[1..] == bs[1..] + [x];
      MergeSnoc(acc', bs[1..], x);
    }
  }

  /** The merge is `acc` followed by the first occurrences of the addresses of
      `bs` that `acc` lacks, in the order of `bs`. */
  lemma {:induction false} MergeAppendsNewAddresses(acc: seq<PeerAddress>, bs: seq<PeerAddress>)
    ensures MergeAddresses(acc, bs) == acc + NewAddresses(acc, bs)
    decreases |bs|
  {
    if bs != [] {
      var init, last := bs[..|bs| - 1], bs[|bs| - 1];
      assert bs == init + [last];
      MergeSnoc(acc, init, last);
      MergeAppendsNewAddresses(acc, init);
      MergeMembers(acc, init, last);
    }
  }
}
