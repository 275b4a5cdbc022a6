/** The stunvpv relay: a server that answers STUN and control messages on one socket and
    forwards data between registered clients. Its tables have the shape of the n2n
    supernode's, with no community. */
module Stunvpv {
  import opened Bytes
  import opened IP
  import N2nProtocol
  import opened N2nEdge
  import opened N2nSupernode
  import opened Options

  const REGISTER: byte := 0x01
  const REGISTER_ACK: byte := 0x02
  const PEER_LIST: byte := 0x03
  const DATA: byte := 0x04

  /** The STUN magic cookie, section 6 of RFC 5389. */
  const MAGIC: Bytes := [0x21, 0x12, 0xA4, 0x42]

  datatype Control = Rejected | Control(kind: byte, vip: Bytes, payload: Bytes)

  // ---- control messages --------------------------------------------------

  /** The address field: an address that is neither IPv4 nor IPv6 (nil, say) leaves zeros. */
  function VipOnWire(vip: Bytes): (r: Bytes)
    ensures |r| == 4 || |r| == 16
  {
    if Wire(vip) == [] then Zeros(16) else Wire(vip)
  }

  function EncodeControl(kind: byte, vip: Bytes, payload: Bytes): Bytes {
    var addr := VipOnWire(vip);
    [kind, |addr|] + addr + Zeros(4) + Put16(|payload|) + payload
  }

  /** What handleControl and the client's handlePacket both read. The payload is cut to the
      declared length, and may be shorter than it. */
  function DecodeControl(data: Bytes): Control {
    if |data| < 8 then Rejected
    else
      var n := data[1] as int;
      if (n != 4 && n != 16) || |data| < 8 + n then Rejected
      else
        var size := Get16(data[6 + n..8 + n]);
        var payload := data[8 + n..];
        Control(data[0], data[2..2 + n], if |payload| > size then payload[..size] else payload)
  }

  /** stun.IsMessage: a whole header with the magic cookie in it. */
  predicate IsStun(data: Bytes) {
    |data| >= 20 && data[4..8] == MAGIC
  }

  /** ip.IsUnspecified(). */
  predicate IsUnspecified(ip: Bytes) {
    Key(ip) == Zeros(4) || Key(ip) == Zeros(16)
  }

  /** The address field as makeControlMessage computes it. */
  method AddrField(vip: Bytes) returns (vipBytes: Bytes, addrLen: nat)
    ensures addrLen == |VipOnWire(vip)|
    ensures vipBytes == VipOnWire(vip) || (vipBytes == [] && VipOnWire(vip) == Zeros(16))
  {
    addrLen := |To4(vip)|;
    if addrLen == 0 { addrLen := 16; }
    vipBytes := To16(vip);
    if addrLen == 4 { vipBytes := To4(vip); }
  }

  /** An address field copied into a zeroed buffer, with the four bytes never written after it. */
  lemma FieldInZeros(before: Bytes, after: Bytes, field: Bytes, addr: Bytes)
    requires |addr| + 6 <= |before| == |after| && before[2..] == Zeros(|before| - 2)
    requires field == addr || (field == [] && addr == Zeros(16))
    requires after[..2 + |field|] == before[..2] + field && after[2 + |field|..] == before[2 + |field|..]
    ensures after[..6 + |addr|] == before[..2] + addr + Zeros(4)
  {
    forall i | 2 <= i < |before| ensures before[i] == 0 {
      assert before[i] == before[2..][i - 2];
    }
    forall i | 0 <= i < |after| ensures after[i] == if i < 2 + |field| then (before[..2] + field)[i] else before[i] {
      assert i < 2 + |field| ==> after[i] == after[..2 + |field|][i];
      assert i >= 2 + |field| ==> after[i] == after[2 + |field|..][i - 2 - |field|];
    }
  }

  /** The first writes of makeControlMessage. Bytes 2 + addrLen to 6 + addrLen are never
      written. */
  method FillHead(buf: array<byte>, kind: byte, vip: Bytes, vipBytes: Bytes, addrLen: nat)
    requires addrLen == |VipOnWire(vip)| && 8 + addrLen <= buf.Length && buf[..] == Zeros(buf.Length)
    requires vipBytes == VipOnWire(vip) || (vipBytes == [] && VipOnWire(vip) == Zeros(16))
    modifies buf
    ensures buf[..6 + addrLen] == [kind, addrLen] + VipOnWire(vip) + Zeros(4)
  {
    hide VipOnWire;
    buf[0] := kind;
    buf[1] := addrLen;
    ghost var before := buf[..];
    Copy(buf, 2, vipBytes);
    FieldInZeros(before, buf[..], vipBytes, VipOnWire(vip));
  }

  /** makeControlMessage: a zeroed buffer filled field by field. */
  method MakeControlMessage(kind: byte, vip: Bytes, payload: Bytes) returns (msg: Bytes)
    ensures msg == EncodeControl(kind, vip, payload)
  {
    hide VipOnWire, Put16, Zeros;
    var vipBytes, addrLen := AddrField(vip);
    var headerLen := 8 + addrLen;
    var buf := Make(headerLen + |payload|);
    FillHead(buf, kind, vip, vipBytes, addrLen);
    Copy(buf, 6 + addrLen, Put16(|payload|));
    Copy(buf, headerLen, payload);
    msg := buf[..];
    assert msg == buf[..headerLen + |payload|];
  }

  /** The checks and copies at the head of both packet handlers. */
  method ReadControl(data: Bytes) returns (r: Control)
    ensures r == DecodeControl(data)
  {
    if |data| < 8 { return Rejected; }
    var kind := data[0];
    var addrLen: nat := data[1];
    if addrLen != 4 && addrLen != 16 { return Rejected; }
    if |data| < 8 + addrLen { return Rejected; }
    var vip := data[2..2 + addrLen];
    var payloadLen := Get16(data[6 + addrLen..8 + addrLen]);
    var payload := data[8 + addrLen..];
    if |payload| > payloadLen { payload := payload[..payloadLen]; }
    r := Control(kind, vip, payload);
  }

  lemma ControlFields(kind: byte, vip: Bytes, payload: Bytes, rest: Bytes)
    ensures
      var n, whole := |VipOnWire(vip)|, EncodeControl(kind, vip, payload) + rest;
      && |whole| == 8 + n + |payload| + |rest| && whole[0] == kind && whole[1] == n && whole[2..2 + n] == VipOnWire(vip)
      && whole[6 + n..8 + n] == Put16(|payload|) && whole[8 + n..] == payload + rest
  {
    hide VipOnWire, Put16, Zeros;
    var addr := VipOnWire(vip);
    var head := [kind, |addr|] + addr + Zeros(4);
    assert EncodeControl(kind, vip, payload) + rest == head + (Put16(|payload|) + (payload + rest));
    assert head[2..2 + |addr|] == addr;
  }

  /** Where each field of a control message stands: kind and address length, the address (sixteen
      zero bytes for none), four unused bytes, the length in big-endian order, the payload. */
  lemma ControlLayout(kind: byte, vip: Bytes, payload: Bytes)
    ensures
      var addr := if Wire(vip) == [] then [0, 0, 0, 0, 0, 0, 0, 0, 0, 0, 0, 0, 0, 0, 0, 0] else Wire(vip);
      var n, data := |addr|, EncodeControl(kind, vip, payload);
      && |data| == 8 + n + |payload| && data[0] == kind && data[1] == n && data[2..2 + n] == addr
      && data[2 + n..6 + n] == [0, 0, 0, 0]
      && data[6 + n] == |payload| / 256 % 256 && data[7 + n] == |payload| % 256 && data[8 + n..] == payload
  {
    hide Wire;
    var addr := VipOnWire(vip);
    var data := EncodeControl(kind, vip, payload);
    assert data == ([kind, |addr|] + addr + Zeros(4)) + (Put16(|payload|) + payload);
    assert data[2..2 + |addr|] == addr && data[2 + |addr|..6 + |addr|] == Zeros(4);
  }

  /** A message read back, whole, cut short or with bytes after it. Unlike an n2n packet, one
      that lost part of its payload is accepted with what is left. */
  lemma DecodeCutControl(kind: byte, vip: Bytes, payload: Bytes, rest: Bytes, k: nat)
    requires k <= |EncodeControl(kind, vip, payload) + rest|
    ensures var n := 8 + |VipOnWire(vip)|;
      DecodeControl((EncodeControl(kind, vip, payload) + rest)[..k]) ==
      if k < n then Rejected
      else Control(kind, VipOnWire(vip), (payload + rest)[..Min(|payload| % U16, k - n)])
  {
    hide VipOnWire, Put16, Get16, EncodeControl;
    ControlFields(kind, vip, payload, rest);
    Get16Put16(|payload|);
    var whole, n := EncodeControl(kind, vip, payload) + rest, |VipOnWire(vip)|;
    var data := whole[..k];
    if k >= 8 + n {
      assert data[2..2 + n] == whole[2..2 + n] && data[6 + n..8 + n] == whole[6 + n..8 + n];
      assert data[8 + n..] == whole[8 + n..][..k - 8 - n];
    }
  }

  function Min(a: nat, b: nat): nat {
    if a < b then a else b
  }

  lemma DecodeEncodeControl(kind: byte, vip: Bytes, payload: Bytes)
    ensures DecodeControl(EncodeControl(kind, vip, payload))
         == Control(kind, VipOnWire(vip), payload[..|payload| % U16])
  {
    hide VipOnWire, Put16, DecodeControl;
    var whole := EncodeControl(kind, vip, payload);
    DecodeCutControl(kind, vip, payload, [], |whole|);
    assert whole + [] == whole && whole[..|whole|] == whole && payload + [] == payload;
  }

  /** A datagram is for STUN exactly when it is at least a header long and has the cookie in it. */
  lemma IsStunIff(data: Bytes)
    ensures IsStun(data) <==> |data| >= 20 && data[4] == 0x21 && data[5] == 0x12 && data[6] == 0xA4 && data[7] == 0x42
  {
    if |data| >= 20 {
      assert data[4..8] == [data[4], data[5], data[6], data[7]];
    }
  }

  /** The unspecified addresses are 0.0.0.0 in its two forms, and ::. */
  lemma IsUnspecifiedIff(ip: Bytes)
    ensures IsUnspecified(ip) <==>
            || ip == [0, 0, 0, 0]
            || ip == [0, 0, 0, 0, 0, 0, 0, 0, 0, 0, 255, 255, 0, 0, 0, 0]
            || ip == [0, 0, 0, 0, 0, 0, 0, 0, 0, 0, 0, 0, 0, 0, 0, 0]
  {
    assert Zeros(4) == [0, 0, 0, 0] && Zeros(16) == [0, 0, 0, 0, 0, 0, 0, 0, 0, 0, 0, 0, 0, 0, 0, 0];
    if |ip| == 16 && ip[..12] == V4_PREFIX { assert ip == V4_PREFIX + ip[12..]; }
    var mapped: Bytes := [0, 0, 0, 0, 0, 0, 0, 0, 0, 0, 255, 255, 0, 0, 0, 0];
    assert mapped[..12] == V4_PREFIX && mapped[12..] == Zeros(4);
  }

  predicate CarriesMagic(vip: Bytes) {
    |VipOnWire(vip)| == 16 && VipOnWire(vip)[2..6] == MAGIC
  }

  /** A control message is taken for STUN exactly when its address travels as 16 bytes and the
      magic cookie stands in bytes 2 to 5 of it: never for IPv4, nil or unspecified ones. */
  lemma ControlIsStunIff(kind: byte, vip: Bytes, payload: Bytes)
    ensures IsStun(EncodeControl(kind, vip, payload)) <==> CarriesMagic(vip)
    ensures vip == [] || To4(vip) != [] || IsUnspecified(vip) ==> !IsStun(EncodeControl(kind, vip, payload))
  {
    hide Put16, Wire;
    var addr := VipOnWire(vip);
    var data := EncodeControl(kind, vip, payload);
    if |addr| == 16 {
      assert data[4..8] == addr[2..6];
    } else {
      assert data[6] == 0;
    }
    assert vip == [] || To4(vip) != [] || IsUnspecified(vip) ==> !CarriesMagic(vip) by { OrdinaryCarriesNoMagic(vip); }
  }

  lemma OrdinaryCarriesNoMagic(vip: Bytes)
    ensures vip == [] || To4(vip) != [] || IsUnspecified(vip) ==> !CarriesMagic(vip)
  {
    assert Zeros(16)[2..6][0] == 0;
    assert MAGIC[0] == 0x21;
    if IsUnspecified(vip) && To4(vip) == [] {
      assert vip == Zeros(16);
    }
  }

  // ---- the server --------------------------------------------------------

  /** The address a registration gets: its own, or one from the pool if it names none. */
  function Assigned(base: Bytes, used: set<Bytes>, vip: Bytes): Option<Bytes>
    requires |base| > 0
  {
    if IsUnspecified(vip) then FirstFree(base, used) else Some(vip)
  }

  function Registered(t: Tables, vip: Bytes, addr: Addr, hostname: Bytes, now: nat): Tables {
    Admit(t, vip, addr, N2nProtocol.Registration([], hostname, 0), now)
  }

  /** handleRelayData: where a payload goes and in what message. net.ParseIP of the text of an
      address is its 16-byte form. */
  function Relayed(t: Tables, dst: Bytes, payload: Bytes, from: Addr): Option<(Addr, Bytes)> {
    if Key(dst) in t.peers && from in t.index && To16(t.index[from]) != [] then
      Some((t.peers[Key(dst)].addr, EncodeControl(DATA, To16(t.index[from]), payload)))
    else None
  }

  /** Acks: the sender is answered, and a broadcast that leaves `vip` out is started. */
  datatype Reaction = Silent | AnswersStun | Acks(msg: Bytes, vip: Bytes) | Relays(to: Addr, msg: Bytes)

  /** handleRegister: the sender is entered under its address and told the table it is now in,
      unless the pool has nothing left for a sender that named no address. */
  ghost predicate RegisterOutcome(base: Bytes, t: Tables, after: Tables, hostname: Bytes, vip: Bytes, remote: Addr,
                                  now: nat, out: Reaction)
    requires |base| > 0
  {
    match Assigned(base, t.used, vip)
    case None => after == t && out == Silent
    case Some(given) =>
      var used := if IsUnspecified(vip) then t.used + {Key(given)} else t.used;
      && after == Registered(t.(used := used), given, remote, hostname, now)
      && exists order ::
           && Order(order, after.peers.Keys)
           && out == Acks(EncodeControl(REGISTER_ACK, given, N2nProtocol.EncodePeers(Listing(after.peers, order))), given)
  }

  /** broadcastPeerList: one message to each peer at another virtual address, naming it. */
  function Broadcast(peers: map<Bytes, Lease>, except: Bytes, payload: Bytes): set<(Addr, Bytes)> {
    set k | k in peers && Key(peers[k].vip) != Key(except) :: (peers[k].addr, EncodeControl(PEER_LIST, peers[k].vip, payload))
  }

  class Server {
    const pool: IpAllocator
    var peers: map<Bytes, Lease>
    var vipIndex: map<Addr, Bytes>

    ghost function State(): Tables
      reads this, pool
    {
      Tables(pool.used, peers, vipIndex)
    }

    constructor (network: Bytes)
      requires ValidBase(network)
      ensures fresh(pool) && pool.base == PoolIp(network, FIRST_HOST) && State() == Tables({}, map[], map[])
    {
      peers, vipIndex := map[], map[];
      pool := new IpAllocator(network);
    }

    method HandleRegister(payload: Bytes, vip: Bytes, remote: Addr, now: nat) returns (out: Reaction)
      requires ValidBase(pool.base)
      modifies this, pool
      ensures RegisterOutcome(pool.base, old(State()), State(), payload, vip, remote, now, out)
    {
      hide Key, EncodeControl, N2nProtocol.EncodePeers;
      var given := vip;
      if IsUnspecified(vip) {
        var free := pool.Allocate();
        if free == None { return Silent; }
        given := free.value;
      }
      peers := peers[Key(given) := Lease(given, remote, now, [], payload)];
      vipIndex := vipIndex[remote := Key(given)];
      var list := ListPeers(peers);
      var data := N2nProtocol.MarshalPeerList(list);
      var msg := MakeControlMessage(REGISTER_ACK, given, data);
      out := Acks(msg, given);
    }

    /** broadcastPeerList, run alone: the list and the receivers come from the same table. */
    method BroadcastPeerList(except: Bytes) returns (sent: set<(Addr, Bytes)>)
      ensures exists order :: Order(order, peers.Keys)
                && sent == Broadcast(peers, except, N2nProtocol.EncodePeers(Listing(peers, order)))
    {
      hide Key, EncodeControl, N2nProtocol.EncodePeers;
      var list := ListPeers(peers);
      var payload := N2nProtocol.MarshalPeerList(list);
      sent := {};
      var todo := peers.Keys;
      while todo != {}
        invariant todo <= peers.Keys
        invariant sent == set k | k in peers && k !in todo && Key(peers[k].vip) != Key(except) ::
                    (peers[k].addr, EncodeControl(PEER_LIST, peers[k].vip, payload))
      {
        var k :| k in todo;
        todo := todo - {k};
        if Key(peers[k].vip) == Key(except) { continue; }
        var msg := MakeControlMessage(PEER_LIST, peers[k].vip, payload);
        sent := sent + {(peers[k].addr, msg)};
      }
      assert sent == Broadcast(peers, except, payload);
    }

    method HandleRelayData(dst: Bytes, payload: Bytes, from: Addr) returns (out: Reaction)
      ensures out == match Relayed(State(), dst, payload, from)
                     case None => Silent
                     case Some(sent) => Relays(sent.0, sent.1)
    {
      var dstKey := Key(dst);
      if dstKey !in peers { return Silent; }
      if from !in vipIndex { return Silent; }
      var srcIP := To16(vipIndex[from]);
      if srcIP == [] { return Silent; }
      var msg := MakeControlMessage(DATA, srcIP, payload);
      out := Relays(peers[dstKey].addr, msg);
    }

    /** handlePacket and handleControl. */
    method HandlePacket(data: Bytes, remote: Addr, now: nat) returns (out: Reaction)
      requires ValidBase(pool.base)
      modifies this, pool
      ensures IsStun(data) ==> State() == old(State()) && out == AnswersStun
      ensures !IsStun(data) && DecodeControl(data).Rejected? ==> State() == old(State()) && out == Silent
      ensures !IsStun(data) && DecodeControl(data).Control? ==>
        var msg := DecodeControl(data);
        if msg.kind == 0x01 then
          RegisterOutcome(pool.base, old(State()), State(), msg.payload, msg.vip, remote, now, out)
        else
          && State() == old(State())
          && out == if msg.kind != 0x04 then Silent
                    else match Relayed(State(), msg.vip, msg.payload, remote)
                         case None => Silent
                         case Some(sent) => Relays(sent.0, sent.1)
    {
      hide Key, EncodeControl, DecodeControl, FirstFree, To16, N2nProtocol.EncodePeers;
      if IsStun(data) { return AnswersStun; }
      out := Silent;
      var msg := ReadControl(data);
      if msg.Rejected? { return; }
      if msg.kind == REGISTER {
        out := HandleRegister(msg.payload, msg.vip, remote, now);
      } else if msg.kind == DATA {
        out := HandleRelayData(msg.vip, msg.payload, remote);
      }
    }
  }

  // ---- the client --------------------------------------------------------

  /** What the client's handlePacket hands to the data callback. */
  function Callback(data: Bytes): Option<(Bytes, Bytes)> {
    match DecodeControl(data)
    case Rejected => None
    case Control(kind, src, payload) => if kind == DATA then Some((src, payload)) else None
  }

  /** What a peer list does to the client's table; other messages leave it alone. */
  function Listed(table: Table, own: Bytes, data: Bytes): Table {
    match DecodeControl(data)
    case Rejected => table
    case Control(kind, _, payload) =>
      if kind != PEER_LIST then table
      else match N2nProtocol.DecodePeers(payload)
        case Err => table
        case Ok(list) => Merge(table, own, list)
  }

  /** The ack as register reads it. Its checks come before it knows that the address field and
      the length are all there, so a short answer makes it panic. */
  function ReadRegisterAck(data: Bytes): N2nProtocol.Parsed<Control> {
    if |data| < 8 || data[0] != REGISTER_ACK || (data[1] != 4 && data[1] != 16) then N2nProtocol.TooShort
    else match DecodeControl(data)
      case Rejected => N2nProtocol.Panic
      case ack => N2nProtocol.Value(ack)
  }

  /** register on the first datagram read. */
  function AfterRegister(table: Table, ack: Control): Table
    requires ack.Control?
  {
    if |ack.payload| <= 2 then table
    else match N2nProtocol.DecodePeers(ack.payload)
      case Err => table
      case Ok(list) => Merge(table, ack.vip, list)
  }

  /** The table keeps each peer's address as the text received; what resolving it gives is only
      shown to the user. */
  class Client {
    const serverAddr: Addr
    var virtualIP: Bytes
    var peers: Table

    constructor (serverAddr: Addr)
      ensures this.serverAddr == serverAddr && virtualIP == [] && peers == map[]
    {
      this.serverAddr := serverAddr;
      virtualIP, peers := [], map[];
    }

    /** register, from the moment a datagram has been read. False stands for a returned error or a
        panic, after which the client does not run. */
    method FinishRegister(data: Bytes) returns (ok: bool)
      modifies this
      ensures ok <==> ReadRegisterAck(data).Value?
      ensures ok ==> virtualIP == ReadRegisterAck(data).value.vip && peers == AfterRegister(old(peers), ReadRegisterAck(data).value)
      ensures !ok ==> virtualIP == old(virtualIP) && peers == old(peers)
    {
      hide N2nProtocol.DecodePeers;
      if |data| < 8 || data[0] != REGISTER_ACK { return false; }
      var addrLen: nat := data[1];
      if addrLen != 4 && addrLen != 16 { return false; }
      if |data| < 8 + addrLen { return false; }
      virtualIP := data[2..2 + addrLen];
      var payloadLen := Get16(data[6 + addrLen..8 + addrLen]);
      var payload := data[8 + addrLen..];
      if |payload| > payloadLen { payload := payload[..payloadLen]; }
      if |payload| > 2 {
        var list := N2nProtocol.UnmarshalPeerList(payload);
        if list.Ok? { peers := MergeEntries(peers, virtualIP, list.value); }
      }
      ok := true;
    }

    method HandlePacket(data: Bytes) returns (delivered: Option<(Bytes, Bytes)>)
      modifies this`peers
      ensures delivered == Callback(data)
      ensures peers == Listed(old(peers), virtualIP, data)
    {
      hide DecodeControl, N2nProtocol.DecodePeers;
      delivered := None;
      var msg := ReadControl(data);
      if msg.Rejected? { return; }
      if msg.kind == PEER_LIST {
        var list := N2nProtocol.UnmarshalPeerList(msg.payload);
        if list.Ok? { peers := MergeEntries(peers, virtualIP, list.value); }
      } else if msg.kind == DATA {
        delivered := Some((msg.vip, msg.payload));
      }
    }

    method SendTo(dst: Bytes, data: Bytes) returns (to: Addr, msg: Bytes)
      ensures to == serverAddr && msg == EncodeControl(DATA, dst, data)
    {
      msg := MakeControlMessage(DATA, dst, data);
      to := serverAddr;
    }
  }

  // ---- one registration, end to end --------------------------------------

  /** What a registration leaves: with an address of its own the sender gets that and the pool stays
      as it is; with none it gets an unused pool address, now used; the entry and the index entry are
      the sender's, and nothing else changes. It is left unanswered exactly when it named no address
      and the pool is used up. */
  lemma RegistrationOutcome(base: Bytes, t: Tables, after: Tables, hostname: Bytes, vip: Bytes, remote: Addr, now: nat, out: Reaction)
    requires ValidBase(base) && RegisterOutcome(base, t, after, hostname, vip, remote, now, out)
    ensures out.Silent? || out.Acks?
    ensures out.Silent? <==> IsUnspecified(vip) && PoolKeys(base) <= t.used
    ensures out.Silent? ==> after == t
    ensures out.Acks? ==>
      var k := Key(out.vip);
      && (if IsUnspecified(vip) then k in PoolKeys(base) && k !in t.used && after.used == t.used + {k} && |out.vip| == |base|
          else out.vip == vip && after.used == t.used)
      && after.peers == t.peers[k := Lease(out.vip, remote, now, [], hostname)] && after.index == t.index[remote := k]
  {
    hide PoolKeys, Key, FirstFree, EncodeControl, N2nProtocol.EncodePeers, IsUnspecified;
    FirstFreeSpec(base, t.used);
  }

  /** The table is short enough to travel in one message. */
  ghost predicate Fits(peers: map<Bytes, Lease>, bound: nat) {
    && |peers| < 65536 && 2 + |peers| * (4 + bound) < 65536
    && forall k | k in peers ::
         (|peers[k].vip| == 4 || |peers[k].vip| == 16) && Key(peers[k].vip) == k && |Wire(peers[k].vip)| + |peers[k].addr| <= bound
  }

  /** The client's table has every peer of the server's but itself, and otherwise what it had. */
  ghost predicate Knows(before: Table, after: Table, own: Bytes, peers: map<Bytes, Lease>) {
    forall k :: if k in peers && k != Key(own) then k in after && after[k] == peers[k].addr
                else (k in after <==> k in before) && (k in after ==> after[k] == before[k])
  }

  lemma EntryFits(peers: map<Bytes, Lease>, bound: nat, k: Bytes)
    requires Fits(peers, bound) && k in peers
    ensures |Wire(peers[k].vip)| + |peers[k].addr| <= bound < 65530
    ensures Key(Wire(peers[k].vip)) == Key(peers[k].vip) == k
  {
    hide Wire, Key;
    KeyOfWire(peers[k].vip);
    assert |peers| >= 1;
    TimesAtLeast(|peers|, 4 + bound);
  }

  lemma TimesAtLeast(n: nat, d: nat)
    requires n >= 1
    ensures n * d >= d
  {
  }

  lemma ListingArrives(peers: map<Bytes, Lease>, order: seq<Bytes>, bound: nat)
    requires Fits(peers, bound) && Order(order, peers.Keys)
    ensures var list := Listing(peers, order);
      && |N2nProtocol.EncodePeers(list)| < U16
      && N2nProtocol.DecodePeers(N2nProtocol.EncodePeers(list)) == N2nProtocol.Ok(N2nProtocol.OnWire(list))
  {
    hide Key, Wire, N2nProtocol.EncodeEntries, N2nProtocol.DecodePeers, N2nProtocol.OnWire, Fits;
    var list := Listing(peers, order);
    OrderLength(order, peers.Keys);
    TableFits(peers, bound);
    forall i | 0 <= i < |list| ensures |Wire(list[i].vip)| + |list[i].addr| <= bound && |list[i].addr| < U16 {
      assert order[i] in order;
      EntryFits(peers, bound, order[i]);
    }
    N2nProtocol.EntriesBound(list, bound);
    N2nProtocol.DecodeEncodePeers(list);
  }

  lemma TableFits(peers: map<Bytes, Lease>, bound: nat)
    requires Fits(peers, bound)
    ensures |peers| < 65536 && 2 + |peers| * (4 + bound) < 65536
  {
  }

  lemma ListingMerges(table: Table, own: Bytes, peers: map<Bytes, Lease>, order: seq<Bytes>, bound: nat)
    requires Fits(peers, bound) && Order(order, peers.Keys)
    ensures Knows(table, Merge(table, own, N2nProtocol.OnWire(Listing(peers, order))), own, peers)
  {
    hide Key, Merge, Fits, Wire;
    var list := N2nProtocol.OnWire(Listing(peers, order));
    forall i | 0 <= i < |list| ensures Key(list[i].vip) == order[i] && list[i].addr == peers[order[i]].addr && order[i] in peers {
      assert order[i] in order;
      EntryFits(peers, bound, order[i]);
    }
    MergeAgrees(table, own, list);
    forall k | k in peers ensures exists i :: 0 <= i < |list| && Key(list[i].vip) == k {
      assert k in order;
      var i :| 0 <= i < |order| && order[i] == k;
      assert Key(list[i].vip) == k;
    }
  }

  /** The server's answer to a registration, as the client's register reads it: the client gets the
      address it was entered under, and its table every other peer of the server's. */
  lemma AckIsRead(base: Bytes, t: Tables, after: Tables, hostname: Bytes, vip: Bytes, remote: Addr, now: nat, out: Reaction,
                  table: Table, bound: nat)
    requires ValidBase(base) && RegisterOutcome(base, t, after, hostname, vip, remote, now, out) && out.Acks?
    requires Fits(after.peers, bound)
    ensures ReadRegisterAck(out.msg).Value? && Key(ReadRegisterAck(out.msg).value.vip) == Key(out.vip)
    ensures Knows(table, AfterRegister(table, ReadRegisterAck(out.msg).value), out.vip, after.peers)
  {
    hide PoolKeys, Key, FirstFree, EncodeControl, DecodeControl, N2nProtocol.EncodePeers, N2nProtocol.DecodePeers, IsUnspecified;
    hide Fits, Knows, Merge, Listing, VipOnWire, N2nProtocol.OnWire;
    var order :| Order(order, after.peers.Keys)
                 && out.msg == EncodeControl(REGISTER_ACK, out.vip, N2nProtocol.EncodePeers(Listing(after.peers, order)));
    var payload := N2nProtocol.EncodePeers(Listing(after.peers, order));
    RegistrationOutcome(base, t, after, hostname, vip, remote, now, out);
    ListingArrives(after.peers, order, bound);
    DecodeEncodeControl(REGISTER_ACK, out.vip, payload);
    assert payload[..|payload| % U16] == payload;
    AckHead(out.vip, payload);
    assert Key(out.vip) in after.peers && after.peers[Key(out.vip)].vip == out.vip;
    VipStays(after.peers, bound, out.vip);
    OrderLength(order, after.peers.Keys);
    LongEnough(after.peers, order, Key(out.vip));
    MergeOwn(table, VipOnWire(out.vip), out.vip, N2nProtocol.OnWire(Listing(after.peers, order)));
    ListingMerges(table, out.vip, after.peers, order, bound);
  }

  lemma AckHead(vip: Bytes, payload: Bytes)
    ensures var data := EncodeControl(REGISTER_ACK, vip, payload);
      |data| >= 8 && data[0] == REGISTER_ACK && (data[1] == 4 || data[1] == 16)
  {
  }

  lemma VipStays(peers: map<Bytes, Lease>, bound: nat, vip: Bytes)
    requires Fits(peers, bound) && Key(vip) in peers && peers[Key(vip)].vip == vip
    ensures Key(VipOnWire(vip)) == Key(vip)
  {
    KeyOfWire(vip);
  }

  lemma LongEnough(peers: map<Bytes, Lease>, order: seq<Bytes>, k: Bytes)
    requires Order(order, peers.Keys) && k in peers
    ensures |N2nProtocol.EncodePeers(Listing(peers, order))| > 2
  {
    hide N2nProtocol.EncodeEntries, N2nProtocol.EncodeEntry;
    var list := Listing(peers, order);
    assert k in order;
    N2nProtocol.EntriesCons(list);
    N2nProtocol.EntrySize(list[0]);
  }

  /** A merge looks only at the text of the edge's own address. */
  lemma {:induction false} MergeOwn(table: Table, own: Bytes, own': Bytes, list: seq<N2nProtocol.Peer>)
    requires Key(own) == Key(own')
    ensures Merge(table, own, list) == Merge(table, own', list)
    decreases |list|
  {
    hide Key;
    if list != [] { MergeOwn(table, own, own', list[..|list| - 1]); }
  }

  /** A broadcast, as each client that gets it reads it. */
  lemma BroadcastIsListed(peers: map<Bytes, Lease>, except: Bytes, order: seq<Bytes>, sent: (Addr, Bytes),
                          table: Table, own: Bytes, bound: nat)
    requires Fits(peers, bound) && Order(order, peers.Keys)
    requires sent in Broadcast(peers, except, N2nProtocol.EncodePeers(Listing(peers, order)))
    ensures Knows(table, Listed(table, own, sent.1), own, peers) && DecodeControl(sent.1).Control? && DecodeControl(sent.1).kind == 3
    ensures exists k :: k in peers && k != Key(except) && peers[k].addr == sent.0
  {
    hide Key, EncodeControl, DecodeControl, N2nProtocol.EncodePeers, N2nProtocol.DecodePeers;
    hide Knows, Merge, Listing, N2nProtocol.OnWire, Wire;
    var payload := N2nProtocol.EncodePeers(Listing(peers, order));
    var k :| k in peers && Key(peers[k].vip) != Key(except) && sent == (peers[k].addr, EncodeControl(PEER_LIST, peers[k].vip, payload));
    DecodeEncodeControl(PEER_LIST, peers[k].vip, payload);
    ListingArrives(peers, order, bound);
    assert payload[..|payload| % U16] == payload;
    ListingMerges(table, own, peers, order, bound);
  }

  /** And every peer but the one left out is sent one. */
  lemma BroadcastReaches(peers: map<Bytes, Lease>, except: Bytes, payload: Bytes, k: Bytes)
    requires k in peers && Key(peers[k].vip) == k && k != Key(except)
    ensures exists sent :: sent in Broadcast(peers, except, payload) && sent.0 == peers[k].addr
  {
    hide EncodeControl, Key;
    assert (peers[k].addr, EncodeControl(PEER_LIST, peers[k].vip, payload)) in Broadcast(peers, except, payload);
  }

  /** Messages of other kinds change no table, and neither does a list cut in its count. */
  lemma OthersListNothing(table: Table, own: Bytes, kind: byte, vip: Bytes, payload: Bytes)
    requires kind != 3 || |payload| < 2
    ensures Listed(table, own, EncodeControl(kind, vip, payload)) == table
  {
    hide EncodeControl, DecodeControl, Merge, VipOnWire;
    DecodeEncodeControl(kind, vip, payload);
  }

  /** A data message, and no other, reaches the callback, with its source and all of its payload if the
      length field can hold that. */
  lemma DataIsDelivered(kind: byte, src: Bytes, payload: Bytes)
    requires |payload| < 65536
    ensures Callback(EncodeControl(kind, src, payload)) == if kind == 4 then Some((VipOnWire(src), payload)) else None
  {
    hide EncodeControl, DecodeControl, VipOnWire;
    DecodeEncodeControl(kind, src, payload);
    assert payload[..|payload| % U16] == payload;
  }

  /** An answer cut short, or of another kind: refused inside its first eight bytes, a panic inside
      the rest of the header, and read with what there is of its list behind that. */
  lemma CutAckIs(kind: byte, vip: Bytes, payload: Bytes, k: nat)
    requires k <= |EncodeControl(kind, vip, payload)|
    ensures
      var n := 8 + |VipOnWire(vip)|;
      ReadRegisterAck(EncodeControl(kind, vip, payload)[..k]) ==
        if k < 8 || kind != 2 then N2nProtocol.TooShort
        else if k < n then N2nProtocol.Panic
        else N2nProtocol.Value(Control(2, VipOnWire(vip), payload[..Min(|payload| % U16, k - n)]))
  {
    hide EncodeControl, DecodeControl, VipOnWire, Wire;
    var whole := EncodeControl(kind, vip, payload);
    ControlLayout(kind, vip, payload);
    DecodeCutControl(kind, vip, payload, [], k);
    assert whole + [] == whole && payload + [] == payload;
    HeadIs(kind, vip, payload);
    if k >= 8 { assert whole[..k][0] == whole[0] && whole[..k][1] == whole[1]; }
  }

  lemma HeadIs(kind: byte, vip: Bytes, payload: Bytes)
    ensures var data := EncodeControl(kind, vip, payload); |data| >= 8 && data[0] == kind && (data[1] == 4 || data[1] == 16)
  {
  }

  // ---- one payload, end to end -------------------------------------------

  ghost predicate ValidIndex(t: Tables) {
    forall a | a in t.index :: (|t.index[a]| == 4 || |t.index[a]| == 16) && Key(t.index[a]) == t.index[a]
  }

  datatype Delivery = Delivery(to: Addr, src: Bytes, payload: Bytes)

  /** The whole way of a payload: SendTo, the server, the other client's callback. */
  function Trip(t: Tables, from: Addr, dst: Bytes, payload: Bytes): Option<Delivery> {
    var sent := EncodeControl(DATA, dst, payload);
    if IsStun(sent) then None
    else match DecodeControl(sent)
      case Rejected => None
      case Control(kind, vip, body) =>
        match Relayed(t, vip, body, from)
        case None => None
        case Some(out) =>
          match Callback(out.1)
          case None => None
          case Some(got) => Some(Delivery(out.0, got.0, got.1))
  }

  /** A payload reaches the callback of the peer registered under its destination exactly when
      that peer and the sender are registered and the destination does not carry the magic
      cookie; its source is then the sender's indexed address, and the payload is unchanged if
      and only if its length fits 16 bits. */
  lemma PayloadArrivesIff(t: Tables, from: Addr, dst: Bytes, payload: Bytes)
    requires ValidIndex(t)
    ensures
      var k := Key(VipOnWire(dst));
      Trip(t, from, dst, payload) ==
      if k in t.peers && from in t.index && !CarriesMagic(dst)
      then Some(Delivery(t.peers[k].addr, t.index[from], payload[..|payload| % U16])) else None
    ensures payload[..|payload| % U16] == payload <==> |payload| < U16
  {
    hide VipOnWire, EncodeControl, DecodeControl, Key, CarriesMagic, IsStun, To16;
    ControlIsStunIff(DATA, dst, payload);
    DecodeEncodeControl(DATA, dst, payload);
    var body := payload[..|payload| % U16];
    assert |body| < U16;
    if from in t.index {
      ParsedKey(t.index[from]);
      DecodeEncodeControl(DATA, To16(t.index[from]), body);
      assert body[..|body| % U16] == body;
    }
  }

  /** Text of an address, parsed and put on the wire, is the address again. */
  lemma ParsedKey(k: Bytes)
    requires (|k| == 4 || |k| == 16) && Key(k) == k
    ensures To16(k) != [] && VipOnWire(To16(k)) == k
  {
  }

  /** For an IPv4 destination nothing but registration is asked. */
  lemma Ipv4PayloadArrives(t: Tables, from: Addr, dst: Bytes, payload: Bytes)
    requires ValidIndex(t) && |dst| == 4 && |payload| < U16
    requires dst in t.peers && from in t.index
    ensures Trip(t, from, dst, payload) == Some(Delivery(t.peers[dst].addr, t.index[from], payload))
  {
    PayloadArrivesIff(t, from, dst, payload);
  }

  /** A client that has just registered can be sent to by every client in the index, and can send to
      every peer, under the addresses the tables have, as long as they do not carry the magic
      cookie. */
  lemma NewClientIsConnected(base: Bytes, t: Tables, after: Tables, hostname: Bytes, vip: Bytes, remote: Addr, now: nat, out: Reaction,
                             other: Addr, dst: Bytes, payload: Bytes)
    requires ValidBase(base) && RegisterOutcome(base, t, after, hostname, vip, remote, now, out) && out.Acks?
    requires ValidIndex(t) && (|vip| == 4 || |vip| == 16) && |payload| < 65536
    requires other in t.index && other != remote && (|dst| == 4 || |dst| == 16) && Key(dst) in t.peers && Key(dst) != Key(out.vip)
    requires !CarriesMagic(out.vip) && !CarriesMagic(dst)
    ensures Trip(after, other, out.vip, payload) == Some(Delivery(remote, t.index[other], payload))
    ensures Trip(after, remote, dst, payload) == Some(Delivery(t.peers[Key(dst)].addr, Key(out.vip), payload))
  {
    hide PoolKeys, FirstFree, EncodeControl, DecodeControl, N2nProtocol.EncodePeers, IsUnspecified;
    hide CarriesMagic, Trip, RegisterOutcome, Key, VipOnWire;
    RegistrationOutcome(base, t, after, hostname, vip, remote, now, out);
    KeyIdempotent(out.vip);
    KeyShape(out.vip);
    KeyShape(dst);
    PayloadArrivesIff(after, other, out.vip, payload);
    PayloadArrivesIff(after, remote, dst, payload);
  }

  lemma KeyShape(ip: Bytes)
    requires |ip| == 4 || |ip| == 16
    ensures (|Key(ip)| == 4 || |Key(ip)| == 16) && Key(VipOnWire(ip)) == Key(ip)
  {
    KeyOfWire(ip);
  }

  ghost predicate HasStaleLease(t: Tables, now: nat, a: Addr) {
    exists k :: k in t.peers && Stale(t.peers[k], now) && t.peers[k].addr == a
  }

  /** A sweep takes the sender's index entry with any stale lease recorded at its address, its
      live lease notwithstanding: a payload to a live peer still arrives after the sweep exactly
      when the sender has no stale lease. */
  lemma SweepSilencesIff(t: Tables, now: nat, from: Addr, dst: Bytes, payload: Bytes)
    requires ValidIndex(t) && Trip(t, from, dst, payload).Some?
    requires Key(VipOnWire(dst)) in t.peers && !Stale(t.peers[Key(VipOnWire(dst))], now)
    ensures Trip(Swept(t, now), from, dst, payload) ==
            if HasStaleLease(t, now, from) then None else Trip(t, from, dst, payload)
  {
    hide VipOnWire, EncodeControl, DecodeControl, Key, CarriesMagic, IsStun, To16, Trip;
    var swept := Swept(t, now);
    PayloadArrivesIff(t, from, dst, payload);
    PayloadArrivesIff(swept, from, dst, payload);
    assert from in swept.index <==> !HasStaleLease(t, now, from);
  }

  /** Such senders exist: any client that registers a second address from where it registered a
      first, and refreshes only the second, once the first lease has timed out. */
  lemma RestartedClientIsSilenced(t: Tables, a: Addr, v1: Bytes, v2: Bytes, name: Bytes, t1: nat, t2: nat, now: nat)
    requires Key(v1) != Key(v2) && now - t1 > TIMEOUT && now - t2 <= TIMEOUT
    ensures
      var t' := Registered(Registered(t, v1, a, name, t1), v2, a, name, t2);
      && t'.index[a] == Key(v2) && t'.peers[Key(v2)].addr == a && !Stale(t'.peers[Key(v2)], now)
      && Key(v2) in Swept(t', now).peers && a !in Swept(t', now).index
  {
    hide Key;
    var t' := Registered(Registered(t, v1, a, name, t1), v2, a, name, t2);
    assert Stale(t'.peers[Key(v1)], now) && t'.peers[Key(v1)].addr == a;
  }
}
