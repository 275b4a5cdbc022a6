/** An edge: its virtual IP and its table of peers, as the packet handlers update them. */
module N2nEdge {
  import opened Bytes
  import opened IP
  import opened N2nProtocol
  import opened N2nSupernode
  import opened Options

  /** e.peers, from the text of a virtual IP to the real address recorded for it. */
  type Table = map<Bytes, Addr>

  datatype EdgeState = EdgeState(vip: Bytes, table: Table)

  /** The loop of handleHeartbeatAck and handlePeerList: later entries win, the edge's own
      address is skipped. */
  function Merge(table: Table, own: Bytes, list: seq<Peer>): Table
    decreases |list|
  {
    if list == [] then table
    else
      var p := list[|list| - 1];
      var t := Merge(table, own, list[..|list| - 1]);
      if Key(p.vip) != Key(own) then t[Key(p.vip) := p.addr] else t
  }

  /** register's own loop, which skips nothing. */
  function MergeAll(table: Table, list: seq<Peer>): Table
    decreases |list|
  {
    if list == [] then table
    else MergeAll(table, list[..|list| - 1])[Key(list[|list| - 1].vip) := list[|list| - 1].addr]
  }

  ghost predicate DistinctKeys(list: seq<Peer>) {
    forall i, j :: 0 <= i < j < |list| ==> Key(list[i].vip) != Key(list[j].vip)
  }

  lemma {:induction false} MergeElsewhere(table: Table, own: Bytes, list: seq<Peer>, k: Bytes)
    requires k == Key(own) || forall i :: 0 <= i < |list| ==> Key(list[i].vip) != k
    ensures var t := Merge(table, own, list); (k in t <==> k in table) && (k in t ==> t[k] == table[k])
  {
    if list != [] {
      hide Key;
      MergeElsewhere(table, own, list[..|list| - 1], k);
    }
  }

  lemma {:induction false} MergeAt(table: Table, own: Bytes, list: seq<Peer>, i: nat)
    requires i < |list| && Key(list[i].vip) != Key(own)
    requires forall j :: i < j < |list| ==> Key(list[j].vip) != Key(list[i].vip)
    ensures Key(list[i].vip) in Merge(table, own, list) && Merge(table, own, list)[Key(list[i].vip)] == list[i].addr
  {
    hide Key;
    if i < |list| - 1 {
      MergeAt(table, own, list[..|list| - 1], i);
    }
  }

  /** After a merge of a list without repeated addresses, in whatever order, the table agrees
      with the list on every address but the edge's own and is otherwise unchanged. */
  lemma MergeAgrees(table: Table, own: Bytes, list: seq<Peer>)
    requires DistinctKeys(list)
    ensures
      var t := Merge(table, own, list);
      && (forall i :: 0 <= i < |list| && Key(list[i].vip) != Key(own) ==>
            Key(list[i].vip) in t && t[Key(list[i].vip)] == list[i].addr)
      && (forall k :: (k == Key(own) || forall i :: 0 <= i < |list| ==> Key(list[i].vip) != k) ==>
            (k in t <==> k in table) && (k in t ==> t[k] == table[k]))
  {
    hide Key, Merge, DistinctKeys;
    var t := Merge(table, own, list);
    forall i | 0 <= i < |list| && Key(list[i].vip) != Key(own)
      ensures Key(list[i].vip) in t && t[Key(list[i].vip)] == list[i].addr
    {
      assert forall j :: i < j < |list| ==> Key(list[j].vip) != Key(list[i].vip) by { KeysDiffer(list, i); }
      MergeAt(table, own, list, i);
    }
    forall k | k == Key(own) || forall i :: 0 <= i < |list| ==> Key(list[i].vip) != k
      ensures (k in t <==> k in table) && (k in t ==> t[k] == table[k])
    {
      MergeElsewhere(table, own, list, k);
    }
  }

  lemma KeysDiffer(list: seq<Peer>, i: nat)
    requires DistinctKeys(list) && i < |list|
    ensures forall j :: i < j < |list| ==> Key(list[j].vip) != Key(list[i].vip)
  {
  }

  /** register's loop: the last entry of an address wins... */
  lemma {:induction false} MergeAllAt(table: Table, list: seq<Peer>, i: nat)
    requires i < |list| && forall j :: i < j < |list| ==> Key(list[j].vip) != Key(list[i].vip)
    ensures Key(list[i].vip) in MergeAll(table, list) && MergeAll(table, list)[Key(list[i].vip)] == list[i].addr
  {
    hide Key;
    if i < |list| - 1 {
      MergeAllAt(table, list[..|list| - 1], i);
    }
  }

  /** ...and addresses that are not in the list stay as they were. */
  lemma {:induction false} MergeAllElsewhere(table: Table, list: seq<Peer>, k: Bytes)
    requires forall i :: 0 <= i < |list| ==> Key(list[i].vip) != k
    ensures var t := MergeAll(table, list); (k in t <==> k in table) && (k in t ==> t[k] == table[k])
  {
    if list != [] {
      hide Key;
      MergeAllElsewhere(table, list[..|list| - 1], k);
    }
  }

  /** Every pair in a merged table was there before or comes from the list. */
  lemma {:induction false} MergeSource(table: Table, own: Bytes, list: seq<Peer>, k: Bytes)
    requires k in Merge(table, own, list)
    ensures (k in table && Merge(table, own, list)[k] == table[k])
         || exists i :: 0 <= i < |list| && Key(list[i].vip) == k && Merge(table, own, list)[k] == list[i].addr
  {
    if list != [] {
      var rest, p := list[..|list| - 1], list[|list| - 1];
      if Key(p.vip) == k && k != Key(own) {
        assert list[|list| - 1].addr == Merge(table, own, list)[k];
      } else {
        MergeSource(table, own, rest, k);
        if !(k in table && Merge(table, own, rest)[k] == table[k]) {
          var i :| 0 <= i < |rest| && Key(rest[i].vip) == k && Merge(table, own, rest)[k] == rest[i].addr;
          assert list[i] == rest[i];
        }
      }
    }
  }

  // ---- register ----------------------------------------------------------

  datatype Ack = Ack(vip: Bytes, peers: seq<Peer>)

  /** What register reads out of a RegisterAck payload. The supernode writes the list length
      in two bytes; this code reads one byte of it and takes the list to start right after. */
  function ReadAck(payload: Bytes): Parsed<Ack> {
    if |payload| == 0 || |payload| < 1 + payload[0] as int + 1 then Panic
    else
      var vip := payload[1..1 + payload[0]];
      var at := 1 + payload[0] as int;
      var n := payload[at] as int;
      if n > 0 && at + 1 + n <= |payload| then
        match DecodePeers(payload[at + 1..at + 1 + n])
        case Ok(peers) => Value(Ack(vip, peers))
        case Err => Value(Ack(vip, []))
      else Value(Ack(vip, []))
  }

  /** No edge ever learns a peer from its RegisterAck: the misread length makes the parser
      see either an empty list or a first address of 256 bytes or more. */
  lemma AckTeachesNothing(vip: Bytes, list: seq<Peer>)
    requires |vip| < 256 && |list| < 256 && |EncodePeers(list)| < U16
    ensures ReadAck(RegisterAckPayload(vip, list)) == Value(Ack(vip, []))
  {
    hide EncodePeers, DecodePeers;
    var enc := EncodePeers(list);
    var payload := RegisterAckPayload(vip, list);
    var at, n, low: byte := 1 + |vip|, |enc| / 256, |enc| % 256;
    var tail := [low] + enc;
    AckLayout(vip, list);
    if n > 0 && at + 1 + n <= |payload| {
      assert payload[at + 1..at + 1 + n] == tail[..n] == [low] + enc[..n - 1];
      if n >= 2 { MisreadList(list, n, low); } else { ShortList(tail[..n]); }
    }
  }

  lemma AckLayout(vip: Bytes, list: seq<Peer>)
    requires |vip| < 256 && |EncodePeers(list)| < U16
    ensures
      var payload, size, at := RegisterAckPayload(vip, list), |EncodePeers(list)|, 1 + |vip|;
      && |payload| == at + 2 + size && payload[0] == |vip| && payload[1..at] == vip && payload[at] == size / 256
      && payload[at + 1..] == [size % 256] + EncodePeers(list)
  {
    hide EncodePeers;
    var enc := EncodePeers(list);
    assert RegisterAckPayload(vip, list) == ([|vip|] + vip + [|enc| / 256]) + ([|enc| % 256] + enc);
  }

  lemma ShortList(b: Bytes)
    requires |b| < 2
    ensures DecodePeers(b) == Err
  {
  }

  lemma MisreadList(list: seq<Peer>, n: nat, low: byte)
    requires |list| < 256 && 2 <= n < 256 && n - 1 <= |EncodePeers(list)|
    ensures DecodePeers([low] + EncodePeers(list)[..n - 1]) == Ok([])
  {
    hide DecodeEntries, EncodeEntries;
    var enc := EncodePeers(list);
    var slice := [low] + enc[..n - 1];
    assert enc[0] == 0 && enc[1] == |list|;
    assert slice[..2] == [low, 0];
    var rest := slice[2..];
    if |rest| >= 2 {
      assert rest == enc[1..n - 1];
      assert list != [] by { NoEntries(); }
      EntriesCons(list);
      assert enc[2] == EncodeEntry(list[0])[0] == 0;
      assert rest[..2] == [|list|, 0];
      assert TakeField(rest) == Missing;
    }
    NoEntryEnds(rest, Get16(slice[..2]));
  }

  lemma NoEntryEnds(rest: Bytes, count: nat)
    requires TakeField(rest) == Missing
    ensures DecodeEntries(rest, count) == []
  {
  }

  /** What register expects, an ack with a one-byte list length, it would read in full. */
  lemma OneByteLengthIsRead(vip: Bytes, list: seq<Peer>)
    requires |vip| < 256 && |EncodePeers(list)| < 256 && ShortAddrs(list)
    ensures ReadAck([|vip|] + vip + ([|EncodePeers(list)|] + EncodePeers(list))) == Value(Ack(vip, OnWire(list)))
  {
    hide EncodePeers, DecodePeers, OnWire;
    var enc, at := EncodePeers(list), 1 + |vip|;
    var payload := [|vip|] + vip + ([|enc|] + enc);
    assert payload[1..at] == vip && payload[at] == |enc| && payload[at + 1..at + 1 + |enc|] == enc;
    assert |enc| >= 2 && |list| < 256 by { ListSize(list); }
    DecodeEncodePeers(list);
  }

  lemma ListSize(list: seq<Peer>)
    ensures |EncodePeers(list)| >= 2 + |list|
  {
    EntriesSize(list);
  }

  lemma {:induction false} EntriesSize(list: seq<Peer>)
    ensures |EncodeEntries(list)| >= |list|
  {
    if list != [] {
      hide EncodeEntry;
      EntriesSize(list[1..]);
      EntrySize(list[0]);
    }
  }

  /** register indexes the payload unchecked: an ack cut short makes it panic exactly when the cut
      is in front of the list length. */
  lemma CutAckPanicsIff(vip: Bytes, list: seq<Peer>, k: nat)
    requires |vip| < 256 && k <= |RegisterAckPayload(vip, list)|
    ensures ReadAck(RegisterAckPayload(vip, list)[..k]).Panic? <==> k < |vip| + 2
  {
    hide EncodePeers, DecodePeers;
    var cut := RegisterAckPayload(vip, list)[..k];
    if k > 0 { assert cut[0] == |vip|; }
  }

  // ---- the class ---------------------------------------------------------

  /** The loop of handleHeartbeatAck and handlePeerList. */
  method MergeEntries(table: Table, own: Bytes, list: seq<Peer>) returns (merged: Table)
    ensures merged == Merge(table, own, list)
  {
    merged := table;
    for i := 0 to |list|
      invariant merged == Merge(table, own, list[..i])
    {
      assert list[..i + 1][..i] == list[..i];
      if Key(list[i].vip) != Key(own) {
        merged := merged[Key(list[i].vip) := list[i].addr];
      }
    }
    assert list[..|list|] == list;
  }

  /** What the edge does with a delivered datagram, as a function of its state. */
  function HandleDatagram(e: EdgeState, data: Bytes): EdgeState {
    match DecodePacket(data)
    case Err => e
    case Ok(pkt) =>
      if pkt.kind == HEARTBEAT_ACK || pkt.kind == PEER_LIST then
        match DecodePeers(pkt.payload)
        case Ok(list) => e.(table := Merge(e.table, e.vip, list))
        case Err => e
      else if pkt.kind == P2P_CONNECT_ACK && Key(pkt.src) in e.table then
        e.(table := e.table[Key(pkt.src) := pkt.payload])
      else e
  }

  /** What onData is given. */
  function Delivered(data: Bytes): Option<Packet> {
    match DecodePacket(data)
    case Err => None
    case Ok(pkt) => if pkt.kind == DATA then Some(pkt) else None
  }

  /** handleP2PConnect. */
  function Answer(e: EdgeState, data: Bytes, local: Addr, resolves: bool): Option<(Addr, Bytes)> {
    match DecodePacket(data)
    case Err => None
    case Ok(pkt) =>
      if pkt.kind == P2P_CONNECT && resolves
      then Some((pkt.payload, EncodePacket(Packet(P2P_CONNECT_ACK, e.vip, pkt.src, local)))) else None
  }

  /** A data packet of SendTo reaches onData with its payload, as long as that fits its length
      field, and with the sender's address. */
  lemma DataIsDelivered(src: Bytes, dst: Bytes, payload: Bytes)
    requires (|src| == 4 || |src| == 16) && |payload| < 65536
    ensures var got := Delivered(EncodePacket(Packet(DATA, src, dst, payload)));
      got.Some? && got.value.payload == payload && Key(got.value.src) == Key(src)
  {
    hide DecodePacket, EncodePacket;
    DecodeEncodeWhole(Packet(DATA, src, dst, payload));
    KeyOfWire(src);
  }

  /** A packet cut anywhere, or a peer list cut in its count, changes nothing and delivers nothing. */
  lemma CutIsIgnored(e: EdgeState, pkt: Packet, k: nat, local: Addr, resolves: bool)
    requires |pkt.payload| < 65536
    requires k < |EncodePacket(pkt)| || (k == |EncodePacket(pkt)| && |pkt.payload| < 2 && pkt.kind in {HEARTBEAT_ACK, PEER_LIST})
    ensures
      var data := EncodePacket(pkt)[..k];
      HandleDatagram(e, data) == e && Delivered(data) == None && Answer(e, data, local, resolves) == None
  {
    hide DecodePacket, EncodePacket, SrcOnWire, DstOnWire;
    if k < |EncodePacket(pkt)| {
      CutPacketRejected(pkt, k);
    } else {
      assert EncodePacket(pkt)[..k] == EncodePacket(pkt);
      DecodeEncodeWhole(pkt);
    }
  }

  /** An edge answers a hole-punching request with its own address, and the one that asked, if it
      lists the edge, sends there from then on. */
  lemma AnswerUpdatesAsker(asker: EdgeState, e: EdgeState, request: Packet, local: Addr)
    requires (|e.vip| == 4 || |e.vip| == 16) && |local| < 65536
    requires request.kind == P2P_CONNECT && |request.payload| < 65536
    ensures Answer(e, EncodePacket(request), local, false) == None
    ensures Answer(e, EncodePacket(request), local, true).Some?
    ensures
      var (to, ack) := Answer(e, EncodePacket(request), local, true).value;
      && to == request.payload
      && HandleDatagram(asker, ack).vip == asker.vip
      && HandleDatagram(asker, ack).table ==
           if Key(e.vip) in asker.table then asker.table[Key(e.vip) := local] else asker.table
  {
    hide DecodePacket, EncodePacket, SrcOnWire, DstOnWire;
    DecodeEncodeWhole(request);
    assert request.payload[..|request.payload| % U16] == request.payload;
    var ack := Packet(P2P_CONNECT_ACK, e.vip, SrcOnWire(request), local);
    DecodeEncodeWhole(ack);
    assert local[..|local| % U16] == local;
    KeyOfWire(e.vip);
    assert Key(SrcOnWire(ack)) == Key(e.vip) by { SourceOnWire(ack); }
  }

  lemma SourceOnWire(pkt: Packet)
    requires |pkt.src| == 4 || |pkt.src| == 16
    ensures SrcOnWire(pkt) == Wire(pkt.src)
  {
  }

  class Edge {
    var virtualIP: Bytes
    var peers: Table
    const superAddr: Addr

    ghost function State(): EdgeState
      reads this
    {
      EdgeState(virtualIP, peers)
    }

    constructor (superAddr: Addr)
      ensures State() == EdgeState([], map[]) && this.superAddr == superAddr
    {
      this.superAddr := superAddr;
      virtualIP, peers := [], map[];
    }

    /** register, from the moment a datagram has been read. False stands for a returned error
        or a panic, after which the edge does not run. */
    method FinishRegister(data: Bytes) returns (ok: bool)
      modifies this
      ensures
        var pkt := DecodePacket(data);
        if pkt.Ok? && pkt.value.kind == REGISTER_ACK && ReadAck(pkt.value.payload).Value? then
          var ack := ReadAck(pkt.value.payload).value;
          ok && State() == EdgeState(ack.vip, MergeAll(old(peers), ack.peers))
        else !ok && State() == old(State())
    {
      hide DecodePacket, DecodePeers;
      ok := false;
      var pkt := UnmarshalPacket(data);
      if pkt.Err? || pkt.value.kind != REGISTER_ACK { return; }
      var payload := pkt.value.payload;
      if |payload| == 0 || |payload| < 1 + payload[0] as int + 1 { return; }
      var addrLen: nat := payload[0];
      virtualIP := payload[1..1 + addrLen];
      var offset := 1 + addrLen;
      var peerListLen: nat := payload[offset];
      offset := offset + 1;
      if peerListLen > 0 && offset + peerListLen <= |payload| {
        var list := UnmarshalPeerList(payload[offset..offset + peerListLen]);
        if list.Ok? { MergeAllPeers(list.value); }
      }
      ok := true;
    }

    /** The loop at the end of register. */
    method MergeAllPeers(list: seq<Peer>)
      modifies this`peers
      ensures peers == MergeAll(old(peers), list)
    {
      for i := 0 to |list|
        invariant peers == MergeAll(old(peers), list[..i])
      {
        assert list[..i + 1][..i] == list[..i];
        peers := peers[Key(list[i].vip) := list[i].addr];
      }
      assert list[..|list|] == list;
    }

    /** handlePacket. A data packet goes to onData. A hole-punching request is answered with the
        edge's own address, if the address it carries resolves. */
    method HandlePacket(data: Bytes, local: Addr, resolves: bool) returns (delivered: Option<Packet>, reply: Option<(Addr, Bytes)>)
      modifies this`peers
      ensures State() == HandleDatagram(old(State()), data)
      ensures delivered == Delivered(data)
      ensures reply == Answer(old(State()), data, local, resolves)
    {
      hide DecodePacket, EncodePacket;
      delivered, reply := None, None;
      var r := UnmarshalPacket(data);
      if r.Err? { return; }
      var pkt := r.value;
      if pkt.kind == HEARTBEAT_ACK || pkt.kind == PEER_LIST {
        var list := UnmarshalPeerList(pkt.payload);
        if list.Ok? { peers := MergeEntries(peers, virtualIP, list.value); }
      } else if pkt.kind == P2P_CONNECT {
        var ack := MarshalPacket(Packet(P2P_CONNECT_ACK, virtualIP, pkt.src, local));
        if resolves { reply := Some((pkt.payload, ack)); }
      } else if pkt.kind == P2P_CONNECT_ACK {
        if Key(pkt.src) in peers { peers := peers[Key(pkt.src) := pkt.payload]; }
      } else if pkt.kind == DATA {
        delivered := Some(pkt);
      }
    }

    /** SendTo: straight to the recorded address, or through the supernode when there is none
        or it does not resolve. */
    method SendTo(dst: Bytes, data: Bytes, resolves: bool) returns (to: Addr, sent: Bytes)
      ensures to == if Key(dst) in peers && resolves then peers[Key(dst)] else superAddr
      ensures sent == EncodePacket(Packet(DATA, virtualIP, dst, data))
    {
      sent := MarshalPacket(Packet(DATA, virtualIP, dst, data));
      if Key(dst) !in peers { return superAddr, sent; }
      if !resolves { return superAddr, sent; }
      to := peers[Key(dst)];
    }
  }
}
