/** The supernode: an address pool with its own mutex, and the peer table and address index
    guarded by a second one. The functions on Tables say what each locked region does; the
    classes have the packet handlers and the cleanup as methods on those tables. */
module N2nSupernode {
  import opened Bytes
  import opened IP
  import opened N2nProtocol
  import opened Options

  /** Durations in nanoseconds, as time.Duration. */
  const TIMEOUT := 300_000_000_000

  const FIRST_HOST := 10
  const LAST_HOST := 255

  datatype Lease = Lease(vip: Bytes, addr: Addr, lastSeen: nat, community: Bytes, hostname: Bytes)

  /** ipAllocator.used, Supernode.peers and Supernode.addrIndex. */
  datatype Tables = Tables(used: set<Bytes>, peers: map<Bytes, Lease>, index: map<Addr, Bytes>)

  // ---- the address pool --------------------------------------------------

  ghost predicate ValidBase(base: Bytes) {
    |base| == 4 || |base| == 16
  }

  function PoolIp(base: Bytes, i: byte): (ip: Bytes)
    requires |base| > 0
    ensures |ip| == |base|
  {
    base[|base| - 1 := i]
  }

  /** The pool address with the lowest last byte whose text is not marked used. */
  function FirstFree(base: Bytes, used: set<Bytes>, i: nat := FIRST_HOST): Option<Bytes>
    requires |base| > 0
    decreases LAST_HOST - i
  {
    if i >= LAST_HOST then None
    else if Key(PoolIp(base, i)) !in used then Some(PoolIp(base, i))
    else FirstFree(base, used, i + 1)
  }

  function PoolKeys(base: Bytes): set<Bytes>
    requires |base| > 0
  {
    set i: byte | FIRST_HOST <= i < LAST_HOST :: Key(PoolIp(base, i))
  }

  /** Allocation fails exactly when the whole pool is used; otherwise it yields an unused
      pool address with the lowest last byte. */
  lemma FirstFreeSpec(base: Bytes, used: set<Bytes>)
    requires ValidBase(base)
    ensures FirstFree(base, used).None? <==> PoolKeys(base) <= used
    ensures forall ip | FirstFree(base, used) == Some(ip) ::
              |ip| == |base| && Key(ip) in PoolKeys(base) && Key(ip) !in used
              && forall i: byte | FIRST_HOST <= i < ip[|ip| - 1] :: Key(PoolIp(base, i)) in used
  {
    FirstFreeFrom(base, used, FIRST_HOST);
  }

  lemma {:induction false} FirstFreeFrom(base: Bytes, used: set<Bytes>, from: nat)
    requires ValidBase(base) && FIRST_HOST <= from
    ensures FirstFree(base, used, from).None? <==>
            forall i: byte | from <= i < LAST_HOST :: Key(PoolIp(base, i)) in used
    ensures forall ip | FirstFree(base, used, from) == Some(ip) ::
              |ip| == |base| && Key(ip) in PoolKeys(base) && Key(ip) !in used
              && forall i: byte | from <= i < ip[|ip| - 1] :: Key(PoolIp(base, i)) in used
    decreases LAST_HOST - from
  {
    hide Key;
    assert from < LAST_HOST ==> Key(PoolIp(base, from)) in PoolKeys(base);
    if from < LAST_HOST && Key(PoolIp(base, from)) in used {
      FirstFreeFrom(base, used, from + 1);
    }
  }

  /** The 245 addresses of the pool have 245 different keys. */
  lemma PoolSize(base: Bytes)
    requires ValidBase(base)
    ensures |PoolKeys(base)| == LAST_HOST - FIRST_HOST
  {
    PoolSizeUpTo(base, LAST_HOST);
  }

  /** The pool is the addresses of the network with a last byte from 10 to 254, and the first one
      allocated is the one that ends in 10. */
  lemma PoolIsTenTo254(base: Bytes, i: byte)
    requires ValidBase(base)
    ensures Key(base[|base| - 1 := i]) in PoolKeys(base) <==> 10 <= i < 255
    ensures FirstFree(base, {}) == Some(base[|base| - 1 := 10])
  {
    hide Key, PoolIp;
    forall j: byte | j != i ensures Key(PoolIp(base, j)) != Key(PoolIp(base, i)) {
      PoolKeysDiffer(base, i, j);
    }
    IpOfPool(base, i);
    IpOfPool(base, 10);
  }

  lemma IpOfPool(base: Bytes, i: byte)
    requires ValidBase(base)
    ensures PoolIp(base, i) == base[|base| - 1 := i]
  {
  }

  lemma {:induction false} PoolSizeUpTo(base: Bytes, n: nat)
    requires ValidBase(base) && FIRST_HOST <= n <= LAST_HOST
    ensures |set i: byte | FIRST_HOST <= i < n :: Key(PoolIp(base, i))| == n - FIRST_HOST
    decreases n
  {
    hide Key, PoolIp;
    var upTo := set i: byte | FIRST_HOST <= i < n :: Key(PoolIp(base, i));
    if n == FIRST_HOST {
      assert upTo == {};
    } else {
      PoolSizeUpTo(base, n - 1);
      var before := set i: byte | FIRST_HOST <= i < n - 1 :: Key(PoolIp(base, i));
      assert upTo == before + {Key(PoolIp(base, n - 1))};
      forall i: byte | FIRST_HOST <= i < n - 1 ensures Key(PoolIp(base, i)) != Key(PoolIp(base, n - 1)) {
        PoolKeysDiffer(base, i, n - 1);
      }
    }
  }

  lemma PoolKeysDiffer(base: Bytes, i: byte, j: byte)
    requires ValidBase(base) && i != j
    ensures Key(PoolIp(base, i)) != Key(PoolIp(base, j))
  {
    hide Key;
    KeyKeepsLastByte(PoolIp(base, i));
    KeyKeepsLastByte(PoolIp(base, j));
  }

  lemma KeyKeepsLastByte(ip: Bytes)
    requires |ip| == 4 || |ip| == 16
    ensures |Key(ip)| > 0 && Key(ip)[|Key(ip)| - 1] == ip[|ip| - 1]
  {
  }

  /** ipAllocator: the used set behind its own mutex. */
  class IpAllocator {
    const base: Bytes
    var used: set<Bytes>

    /** newIPAllocator, from the network address of the configured CIDR. */
    constructor (network: Bytes)
      requires ValidBase(network)
      ensures base == PoolIp(network, FIRST_HOST) && used == {}
    {
      base := PoolIp(network, FIRST_HOST);
      used := {};
    }

    method Allocate() returns (ip: Option<Bytes>)
      requires ValidBase(base)
      modifies this
      ensures ip == FirstFree(base, old(used))
      ensures used == if ip.Some? then old(used) + {Key(ip.value)} else old(used)
    {
      for i := FIRST_HOST to LAST_HOST
        invariant used == old(used)
        invariant FirstFree(base, used) == FirstFree(base, used, i)
      {
        var candidate := PoolIp(base, i);
        if Key(candidate) !in used {
          used := used + {Key(candidate)};
          return Some(candidate);
        }
      }
      return None;
    }

    method Release(ip: Bytes)
      modifies this
      ensures used == old(used) - {Key(ip)}
    {
      used := used - {Key(ip)};
    }
  }

  // ---- what each locked region does --------------------------------------

  /** handleRegister under s.mu. */
  function Admit(t: Tables, vip: Bytes, addr: Addr, reg: Registration, now: nat): Tables {
    t.(peers := t.peers[Key(vip) := Lease(vip, addr, now, reg.community, reg.hostname)],
       index := t.index[addr := Key(vip)])
  }

  /** handleHeartbeat under s.mu. */
  function Touch(t: Tables, key: Bytes, now: nat): Tables {
    if key in t.peers then t.(peers := t.peers[key := t.peers[key].(lastSeen := now)]) else t
  }

  /** handleBye and cleanup: the pool gets the address back first... */
  function Release(t: Tables, key: Bytes): Tables
    requires key in t.peers
  {
    t.(used := t.used - {Key(t.peers[key].vip)})
  }

  /** ...and then the index and the table forget the peer. */
  function Remove(t: Tables, key: Bytes): Tables
    requires key in t.peers
  {
    t.(index := t.index - {t.peers[key].addr}, peers := t.peers - {key})
  }

  predicate Stale(lease: Lease, now: nat) {
    now - lease.lastSeen > TIMEOUT
  }

  /** What a whole sweep leaves when nothing runs beside it. */
  function Swept(t: Tables, now: nat): Tables {
    var gone := set k | k in t.peers && Stale(t.peers[k], now);
    Tables(t.used - (set k | k in gone :: Key(t.peers[k].vip)),
           t.peers - gone,
           t.index - (set k | k in gone :: t.peers[k].addr))
  }

  /** A key sequence that visits each element of a set once: a map iteration order. */
  ghost predicate Order(order: seq<Bytes>, keys: set<Bytes>) {
    && (forall i, j :: 0 <= i < j < |order| ==> order[i] != order[j])
    && (forall k :: k in order <==> k in keys)
  }

  function Listing(peers: map<Bytes, Lease>, order: seq<Bytes>): (list: seq<Peer>)
    requires forall k <- order :: k in peers
    ensures |list| == |order|
  {
    seq(|order|, i requires 0 <= i < |order| => Peer(peers[order[i]].vip, peers[order[i]].addr))
  }

  lemma OrderLength(order: seq<Bytes>, keys: set<Bytes>)
    requires Order(order, keys)
    ensures |order| == |keys|
  {
    if order == [] {
      assert keys == {};
    } else {
      assert order[0] in keys;
      var rest := keys - {order[0]};
      forall k ensures k in order[1..] <==> k in rest {
        if k in order[1..] {
          var i :| 0 <= i < |order[1..]| && order[1..][i] == k;
          assert order[i + 1] == k && k in order;
        }
      }
      OrderLength(order[1..], rest);
    }
  }

  /** The loop of Peers and of the handlers: the table in some iteration order. */
  method ListPeers(peers: map<Bytes, Lease>) returns (list: seq<Peer>)
    ensures exists order :: Order(order, peers.Keys) && list == Listing(peers, order)
  {
    list := [];
    var todo := peers.Keys;
    ghost var order: seq<Bytes> := [];
    while todo != {}
      invariant todo <= peers.Keys && Order(order, peers.Keys - todo)
      invariant list == Listing(peers, order)
    {
      var k :| k in todo;
      list := list + [Peer(peers[k].vip, peers[k].addr)];
      ghost var visited := order + [k];
      assert forall j :: j in visited <==> j in order || j == k;
      order := visited;
      todo := todo - {k};
    }
    assert Order(order, peers.Keys);
  }

  // ---- packets the supernode builds --------------------------------------

  function RegisterAckPayload(vip: Bytes, list: seq<Peer>): Bytes {
    [|vip| % 256] + vip + Prefixed(EncodePeers(list))
  }

  function RegisterAck(vip: Bytes, list: seq<Peer>): Packet {
    Packet(REGISTER_ACK, vip, vip, RegisterAckPayload(vip, list))
  }

  function HeartbeatAck(request: Packet, list: seq<Peer>): Packet {
    request.(kind := HEARTBEAT_ACK, payload := EncodePeers(list))
  }

  function PeerUpdate(vip: Bytes, addr: Addr): Packet {
    Packet(PEER_LIST, vip, [], EncodePeers([Peer(vip, addr)]))
  }

  /** An ack carries the new address in both address fields and, behind its length, once more in
      front of the list. */
  lemma AckOnWire(vip: Bytes, list: seq<Peer>)
    requires (|vip| == 4 || |vip| == 16) && |EncodePeers(list)| < 60000
    ensures DecodePacket(EncodePacket(RegisterAck(vip, list)))
         == Ok(Packet(2, Wire(vip), Wire(vip), [|vip|] + vip + [|EncodePeers(list)| / 256, |EncodePeers(list)| % 256] + EncodePeers(list)))
  {
    hide DecodePacket, EncodePacket, EncodePeers, Wire;
    DecodeEncodeWhole(RegisterAck(vip, list));
    var payload := RegisterAckPayload(vip, list);
    assert payload[..|payload| % U16] == payload;
    assert payload == [|vip|] + vip + [|EncodePeers(list)| / 256, |EncodePeers(list)| % 256] + EncodePeers(list);
    KeyOfWire(vip);
    VipTravels(vip);
  }

  lemma VipTravels(vip: Bytes)
    requires |vip| == 4 || |vip| == 16
    ensures Wire(vip) != []
  {
  }

  /** An answer to a heartbeat echoes the request's addresses and carries the list. */
  lemma AnswerOnWire(request: Packet, list: seq<Peer>)
    requires |EncodePeers(list)| < U16
    ensures DecodePacket(EncodePacket(HeartbeatAck(request, list)))
         == Ok(Packet(4, SrcOnWire(request), DstOnWire(request), EncodePeers(list)))
  {
    hide DecodePacket, EncodePacket, EncodePeers;
    DecodeEncodeWhole(HeartbeatAck(request, list));
    assert EncodePeers(list)[..|EncodePeers(list)| % U16] == EncodePeers(list);
  }

  /** An update comes from the new address and carries a list of one peer. */
  lemma UpdateOnWire(vip: Bytes, addr: Addr)
    requires (|vip| == 4 || |vip| == 16) && |EncodePeers([Peer(vip, addr)])| < U16
    ensures DecodePacket(EncodePacket(PeerUpdate(vip, addr)))
         == Ok(Packet(8, Wire(vip), Zeros(|Wire(vip)|), EncodePeers([Peer(vip, addr)])))
  {
    hide DecodePacket, EncodePacket, EncodePeers;
    DecodeEncodeWhole(PeerUpdate(vip, addr));
    var payload := EncodePeers([Peer(vip, addr)]);
    assert payload[..|payload| % U16] == payload;
    VipTravels(vip);
  }

  function Announce(peers: map<Bytes, Lease>, vip: Bytes, addr: Addr): set<(Addr, Bytes)> {
    set k | k in peers && peers[k].addr != addr :: (peers[k].addr, EncodePacket(PeerUpdate(vip, addr)))
  }

  class Supernode {
    const community: Bytes
    var peers: map<Bytes, Lease>
    var addrIndex: map<Addr, Bytes>
    const pool: IpAllocator

    ghost function State(): Tables
      reads this, pool
    {
      Tables(pool.used, peers, addrIndex)
    }

    constructor (community: Bytes, network: Bytes)
      requires ValidBase(network)
      ensures fresh(pool) && pool.base == PoolIp(network, FIRST_HOST) && this.community == community
      ensures State() == Tables({}, map[], map[])
    {
      this.community := community;
      peers, addrIndex := map[], map[];
      pool := new IpAllocator(network);
    }

    method Peers() returns (list: seq<Peer>)
      ensures exists order :: Order(order, peers.Keys) && list == Listing(peers, order)
    {
      list := ListPeers(peers);
    }

    /** handleRegister, one call running alone. */
    method HandleRegister(pkt: Packet, remote: Addr, now: nat) returns (ack: Option<Packet>, announce: Option<Bytes>)
      requires ValidBase(pool.base)
      modifies this, pool
      ensures
        var reg := DecodeRegistration(pkt.payload);
        var vip := FirstFree(pool.base, old(pool.used));
        if reg.Value? && reg.value.community == community && vip.Some? then
          && State() == Admit(old(State()).(used := old(pool.used) + {Key(vip.value)}), vip.value, remote, reg.value, now)
          && announce == vip
          && exists order :: Order(order, peers.Keys) && ack == Some(RegisterAck(vip.value, Listing(peers, order)))
        else
          State() == old(State()) && ack.None? && announce.None?
    {
      ack, announce := None, None;
      var payload := DecodeRegistration(pkt.payload);
      if !payload.Value? { return; }
      if payload.value.community != community { return; }
      var vip := pool.Allocate();
      if vip == None { return; }
      peers := peers[Key(vip.value) := Lease(vip.value, remote, now, payload.value.community, payload.value.hostname)];
      addrIndex := addrIndex[remote := Key(vip.value)];
      var list := Peers();
      var peerListData := MarshalPeerList(list);
      var ackPayload := [|vip.value| % 256] + vip.value + Put16(|peerListData|) + peerListData;
      assert ackPayload == RegisterAckPayload(vip.value, list);
      ack, announce := Some(Packet(REGISTER_ACK, vip.value, vip.value, ackPayload)), vip;
    }

    /** handleHeartbeat, one call running alone. */
    method HandleHeartbeat(pkt: Packet, now: nat) returns (ack: Packet)
      modifies this
      ensures State() == Touch(old(State()), Key(pkt.src), now)
      ensures exists order :: Order(order, peers.Keys) && ack == HeartbeatAck(pkt, Listing(peers, order))
    {
      var src := Key(pkt.src);
      if src in peers {
        peers := peers[src := peers[src].(lastSeen := now)];
      }
      var list := Peers();
      var payload := MarshalPeerList(list);
      ack := pkt.(kind := HEARTBEAT_ACK, payload := payload);
    }

    /** handleBye. */
    method HandleBye(pkt: Packet)
      modifies this, pool
      ensures State() == if Key(pkt.src) in old(peers) then Remove(Release(old(State()), Key(pkt.src)), Key(pkt.src))
                         else old(State())
    {
      var src := Key(pkt.src);
      if src in peers {
        var entry := peers[src];
        pool.Release(entry.vip);
        addrIndex := addrIndex - {entry.addr};
        peers := peers - {src};
      }
    }

    /** broadcastPeerUpdate: one packet per live peer at another address. */
    method BroadcastPeerUpdate(vip: Bytes, realAddr: Addr) returns (sent: set<(Addr, Bytes)>)
      ensures sent == Announce(peers, vip, realAddr)
    {
      sent := {};
      var todo := peers.Keys;
      while todo != {}
        invariant todo <= peers.Keys
        invariant sent == set k | k in peers && k !in todo && peers[k].addr != realAddr ::
                    (peers[k].addr, EncodePacket(PeerUpdate(vip, realAddr)))
      {
        var k :| k in todo;
        todo := todo - {k};
        if peers[k].addr == realAddr { continue; }
        var payload := MarshalPeerList([Peer(vip, realAddr)]);
        var data := MarshalPacket(Packet(PEER_LIST, vip, [], payload));
        sent := sent + {(peers[k].addr, data)};
      }
    }

    /** cleanup: visits the table in map order, evicting as it goes. */
    method Cleanup(now: nat)
      modifies this, pool
      ensures State() == Swept(old(State()), now)
    {
      hide Key, SweptPart, Swept;
      ghost var before := State();
      ghost var visited: set<Bytes> := {};
      var todo := peers.Keys;
      NothingSwept(before, now);
      while todo != {}
        invariant todo == before.peers.Keys - visited && visited <= before.peers.Keys
        invariant State() == SweptPart(before, now, visited)
      {
        var k :| k in todo;
        NotYetSwept(before, now, visited, k);
        var entry := peers[k];
        if now - entry.lastSeen > TIMEOUT {
          pool.Release(entry.vip);
          addrIndex := addrIndex - {entry.addr};
          peers := peers - {k};
        }
        todo := todo - {k};
        SweptMore(before, now, visited, k);
        visited := visited + {k};
      }
      assert visited == before.peers.Keys;
      AllSwept(before, now);
    }
  }

  /** A sweep that has visited part of the table. */
  ghost function SweptPart(t: Tables, now: nat, visited: set<Bytes>): Tables {
    var gone := set k | k in t.peers && k in visited && Stale(t.peers[k], now);
    Tables(t.used - (set k | k in gone :: Key(t.peers[k].vip)),
           t.peers - gone,
           t.index - (set k | k in gone :: t.peers[k].addr))
  }

  lemma NothingSwept(t: Tables, now: nat)
    ensures SweptPart(t, now, {}) == t
  {
  }

  lemma AllSwept(t: Tables, now: nat)
    ensures SweptPart(t, now, t.peers.Keys) == Swept(t, now)
  {
    hide Key;
    var gone := set k | k in t.peers && Stale(t.peers[k], now);
    assert gone == set k | k in t.peers && k in t.peers.Keys && Stale(t.peers[k], now);
  }

  lemma NotYetSwept(t: Tables, now: nat, visited: set<Bytes>, k: Bytes)
    requires k in t.peers && k !in visited
    ensures k in SweptPart(t, now, visited).peers && SweptPart(t, now, visited).peers[k] == t.peers[k]
  {
  }

  lemma SweptMore(t: Tables, now: nat, visited: set<Bytes>, k: Bytes)
    requires k in t.peers && k !in visited
    ensures SweptPart(t, now, visited + {k}) ==
            var s := SweptPart(t, now, visited);
            if Stale(t.peers[k], now) then
              Tables(s.used - {Key(t.peers[k].vip)}, s.peers - {k}, s.index - {t.peers[k].addr})
            else s
  {
    hide Key, Stale;
    var s, s' := SweptPart(t, now, visited), SweptPart(t, now, visited + {k});
    var gone := set j | j in t.peers && j in visited && Stale(t.peers[j], now);
    var gone' := set j | j in t.peers && j in visited + {k} && Stale(t.peers[j], now);
    assert gone' == if Stale(t.peers[k], now) then gone + {k} else gone;
    assert (set j | j in gone + {k} :: Key(t.peers[j].vip)) == (set j | j in gone :: Key(t.peers[j].vip)) + {Key(t.peers[k].vip)};
    assert (set j | j in gone + {k} :: t.peers[j].addr) == (set j | j in gone :: t.peers[j].addr) + {t.peers[k].addr};
    assert s'.peers == if Stale(t.peers[k], now) then s.peers - {k} else s.peers;
  }
}
