/** The n2n wire format: packets and peer lists, byte for byte. */
module N2nProtocol {
  import opened Bytes
  import opened IP

  const REGISTER: byte := 0x01
  const REGISTER_ACK: byte := 0x02
  const HEARTBEAT: byte := 0x03
  const HEARTBEAT_ACK: byte := 0x04
  const DATA: byte := 0x05
  const P2P_CONNECT: byte := 0x06
  const P2P_CONNECT_ACK: byte := 0x07
  const PEER_LIST: byte := 0x08
  const BYE: byte := 0x09

  datatype Result<+T> = Ok(value: T) | Err

  datatype Packet = Packet(kind: byte, src: Bytes, dst: Bytes, payload: Bytes)

  /** The fields of PeerInfo that travel. */
  datatype Peer = Peer(vip: Bytes, addr: Addr)

  // ---- packets -----------------------------------------------------------

  function SrcOnWire(pkt: Packet): (r: Bytes)
    ensures |r| == 4 || |r| == 16
  {
    if Wire(pkt.src) == [] then Zeros(4) else Wire(pkt.src)
  }

  function DstOnWire(pkt: Packet): (r: Bytes)
    ensures |r| == |SrcOnWire(pkt)|
  {
    var n := |SrcOnWire(pkt)|;
    if |Wire(pkt.dst)| == n then Wire(pkt.dst) else Zeros(n)
  }

  function EncodePacket(pkt: Packet): Bytes {
    var src := SrcOnWire(pkt);
    [pkt.kind, |src|] + src + DstOnWire(pkt) + Put16(|pkt.payload|) + pkt.payload
  }

  function DecodePacket(data: Bytes): Result<Packet> {
    if |data| < 4 then Err
    else
      var n := data[1] as int;
      if n != 4 && n != 16 then Err
      else if |data| < 4 + 2 * n then Err
      else
        var size := Get16(data[2 + 2 * n..4 + 2 * n]);
        if |data| < 4 + 2 * n + size then Err
        else Ok(Packet(data[0], data[2..2 + n], data[2 + n..2 + 2 * n], data[4 + 2 * n..4 + 2 * n + size]))
  }

  /** Where each field of a packet stands: the kind, the address length, the two addresses, the
      length in big-endian order and the payload. A source that is no IP address travels as four
      zero bytes, a destination of another length than the source as zeros. */
  lemma PacketLayout(pkt: Packet)
    ensures
      var src := if Wire(pkt.src) == [] then [0, 0, 0, 0] else Wire(pkt.src);
      var n, data := |src|, EncodePacket(pkt);
      && |data| == 4 + 2 * n + |pkt.payload|
      && data[0] == pkt.kind && data[1] == n && data[2..2 + n] == src
      && (if |Wire(pkt.dst)| == n then data[2 + n..2 + 2 * n] == Wire(pkt.dst) else forall i :: 2 + n <= i < 2 + 2 * n ==> data[i] == 0)
      && data[2 + 2 * n] == |pkt.payload| / 256 % 256 && data[3 + 2 * n] == |pkt.payload| % 256
      && data[4 + 2 * n..] == pkt.payload
  {
    hide Wire;
    var src, dst, n, data := SrcOnWire(pkt), DstOnWire(pkt), |SrcOnWire(pkt)|, EncodePacket(pkt);
    assert data[2..2 + n] == src && data[2 + n..2 + 2 * n] == dst;
    assert forall i :: 0 <= i < n ==> data[2 + n + i] == dst[i];
  }

  /** The address fields as MarshalPacket computes them. */
  method HeaderAddrs(pkt: Packet) returns (src: Bytes, dst: Bytes, addrLen: nat)
    ensures addrLen == |SrcOnWire(pkt)| && dst == DstOnWire(pkt)
    ensures src == SrcOnWire(pkt) || (src == [] && SrcOnWire(pkt) == Zeros(4))
  {
    src, dst := To4(pkt.src), To4(pkt.dst);
    if src == [] { src := To16(pkt.src); }
    if dst == [] { dst := To16(pkt.dst); }
    addrLen := |src|;
    if addrLen == 0 { addrLen := 4; }
    if |dst| != addrLen { dst := Zeros(addrLen); }
  }

  /** MarshalPacket: a zeroed buffer filled field by field. */
  method MarshalPacket(pkt: Packet) returns (data: Bytes)
    ensures data == EncodePacket(pkt)
  {
    hide SrcOnWire, DstOnWire, Put16;
    var src, dst, addrLen := HeaderAddrs(pkt);
    var headerLen := 4 + 2 * addrLen;
    var buf := Make(headerLen + |pkt.payload|);
    buf[0] := pkt.kind;
    buf[1] := addrLen;
    ghost var head: Bytes := [pkt.kind, addrLen];
    assert buf[..2] == head && buf[2..] == Zeros(buf.Length - 2);
    Copy(buf, 2, src);
    head := head + SrcOnWire(pkt);
    if src == [] {
      assert buf[2..6] == buf[2..][..4] == Zeros(4);
      assert buf[..6] == buf[..2] + buf[2..6];
    }
    assert buf[..2 + addrLen] == head;
    Copy(buf, 2 + addrLen, dst);
    Copy(buf, 2 + 2 * addrLen, Put16(|pkt.payload|));
    Copy(buf, headerLen, pkt.payload);
    data := buf[..];
    assert data == head + dst + Put16(|pkt.payload|) + pkt.payload;
  }

  /** UnmarshalPacket: length checks, then one copy per field. */
  method UnmarshalPacket(data: Bytes) returns (r: Result<Packet>)
    ensures r == DecodePacket(data)
  {
    if |data| < 4 { return Err; }
    var kind := data[0];
    var addrLen: nat := data[1];
    if addrLen != 4 && addrLen != 16 { return Err; }
    var headerLen := 2 + addrLen * 2 + 2;
    if |data| < headerLen { return Err; }
    var src, dst := data[2..2 + addrLen], data[2 + addrLen..2 + addrLen * 2];
    var payloadLen := Get16(data[2 + addrLen * 2..4 + addrLen * 2]);
    if |data| < headerLen + payloadLen { return Err; }
    r := Ok(Packet(kind, src, dst, data[headerLen..headerLen + payloadLen]));
  }

  /** What the receiver gets: addresses in wire form, the payload cut to its 16-bit length.
      Bytes after the packet are ignored. */
  lemma DecodeEncode(pkt: Packet, rest: Bytes)
    ensures DecodePacket(EncodePacket(pkt) + rest)
         == Ok(Packet(pkt.kind, SrcOnWire(pkt), DstOnWire(pkt), pkt.payload[..|pkt.payload| % U16]))
  {
    hide SrcOnWire, DstOnWire, Put16, Get16;
    var src, dst, len := SrcOnWire(pkt), DstOnWire(pkt), Put16(|pkt.payload|);
    var n := |src|;
    var data := EncodePacket(pkt) + rest;
    assert data == [pkt.kind, n] + src + dst + len + pkt.payload + rest;
    assert data[2..2 + n] == src;
    assert data[2 + n..2 + 2 * n] == dst;
    assert data[2 + 2 * n..4 + 2 * n] == len;
    Get16Put16(|pkt.payload|);
    var size := |pkt.payload| % U16;
    assert data[4 + 2 * n..4 + 2 * n + size] == pkt.payload[..size];
  }

  lemma DecodeEncodeWhole(pkt: Packet)
    ensures DecodePacket(EncodePacket(pkt))
         == Ok(Packet(pkt.kind, SrcOnWire(pkt), DstOnWire(pkt), pkt.payload[..|pkt.payload| % U16]))
  {
    hide DecodePacket, EncodePacket, SrcOnWire, DstOnWire;
    DecodeEncode(pkt, []);
    assert EncodePacket(pkt) + [] == EncodePacket(pkt);
  }

  /** The payload survives exactly when its length fits the field. */
  lemma PayloadSurvives(pkt: Packet)
    ensures DecodePacket(EncodePacket(pkt)).Ok?
    ensures DecodePacket(EncodePacket(pkt)).value.payload == pkt.payload <==> |pkt.payload| < U16
  {
    hide DecodePacket, EncodePacket;
    DecodeEncodeWhole(pkt);
  }

  /** A datagram cut anywhere is rejected, never misread. */
  lemma CutPacketRejected(pkt: Packet, k: nat)
    requires |pkt.payload| < U16 && k < |EncodePacket(pkt)|
    ensures DecodePacket(EncodePacket(pkt)[..k]) == Err
  {
    hide SrcOnWire, DstOnWire, Put16, Get16;
    var src, dst, len := SrcOnWire(pkt), DstOnWire(pkt), Put16(|pkt.payload|);
    var n, whole := |src|, EncodePacket(pkt);
    var data := whole[..k];
    Get16Put16(|pkt.payload|);
    assert whole == [pkt.kind, n] + src + dst + (len + pkt.payload);
    assert whole[1] == n && whole[2 + 2 * n..4 + 2 * n] == len;
    if 4 + 2 * n <= k {
      assert data[1] == n && data[2 + 2 * n..4 + 2 * n] == whole[2 + 2 * n..4 + 2 * n];
    }
  }

  // ---- peer lists --------------------------------------------------------

  function EncodeEntry(p: Peer): Bytes {
    Prefixed(Wire(p.vip)) + Prefixed(p.addr)
  }

  function EncodeEntries(list: seq<Peer>): Bytes {
    if list == [] then [] else EncodeEntry(list[0]) + EncodeEntries(list[1..])
  }

  function EncodePeers(list: seq<Peer>): Bytes {
    Put16(|list|) + EncodeEntries(list)
  }

  datatype Entry = NoEntry | Entry(peer: Peer, rest: Bytes)

  /** The entry at the front of the bytes, if all of it is there. */
  function TakeEntry(b: Bytes): Entry {
    match TakeField(b)
    case Missing => NoEntry
    case Field(vip, afterVip) =>
      match TakeField(afterVip)
      case Missing => NoEntry
      case Field(addr, afterAddr) => Entry(Peer(vip, addr), afterAddr)
  }

  /** The entries read from the bytes after the count, until the count is reached or the
      bytes run out in the middle of an entry. */
  function DecodeEntries(rest: Bytes, count: nat): seq<Peer> {
    if count == 0 then []
    else match TakeEntry(rest)
      case NoEntry => []
      case Entry(p, after) => [p] + DecodeEntries(after, count - 1)
  }

  function DecodePeers(data: Bytes): Result<seq<Peer>> {
    if |data| < 2 then Err else Ok(DecodeEntries(data[2..], Get16(data[..2])))
  }

  lemma NoEntries()
    ensures EncodeEntries([]) == []
  {
  }

  lemma EntriesCons(list: seq<Peer>)
    requires list != []
    ensures EncodeEntries(list) == EncodeEntry(list[0]) + EncodeEntries(list[1..])
  {
  }

  lemma EntriesAppend(list: seq<Peer>, p: Peer)
    ensures EncodeEntries(list + [p]) == EncodeEntries(list) + EncodeEntry(p)
  {
    if list == [] {
      assert [p][1..] == [];
    } else {
      assert (list + [p])[1..] == list[1..] + [p];
      EntriesAppend(list[1..], p);
    }
  }

  /** To4, and To16 where that gives nothing. */
  method Normalise(ip: Bytes) returns (r: Bytes)
    ensures r == Wire(ip)
  {
    r := To4(ip);
    if r == [] { r := To16(ip); }
  }

  /** The buffer built for one entry. */
  method MarshalEntry(p: Peer) returns (entry: Bytes)
    ensures entry == EncodeEntry(p)
  {
    hide Wire, Prefixed;
    var vip := Normalise(p.vip);
    var realAddr, addrLen := p.addr, |vip|;
    var buf := Make(2 + addrLen + 2 + |realAddr|);
    CopyPrefixed(buf, 0, vip);
    CopyPrefixed(buf, 2 + addrLen, realAddr);
    entry := buf[..];
    assert entry == buf[..4 + addrLen + |realAddr|];
  }

  /** marshalPeerList: one entry per peer, appended in list order. */
  method MarshalPeerList(peers: seq<Peer>) returns (data: Bytes)
    ensures data == EncodePeers(peers)
  {
    hide EncodeEntries, EncodeEntry, Put16;
    data := Put16(|peers|);
    NoEntries();
    for i := 0 to |peers|
      invariant data == Put16(|peers|) + EncodeEntries(peers[..i])
    {
      var entry := MarshalEntry(peers[i]);
      EntriesAppend(peers[..i], peers[i]);
      assert peers[..i + 1] == peers[..i] + [peers[i]];
      data := data + entry;
    }
    assert peers[..|peers|] == peers;
  }

  /** The body of the loop below: the entry at an offset, with one bounds check per field. */
  method UnmarshalEntry(data: Bytes, start: nat) returns (ok: bool, p: Peer, offset: nat)
    requires start <= |data|
    ensures !ok ==> TakeEntry(data[start..]) == NoEntry
    ensures ok ==> start < offset <= |data| && TakeEntry(data[start..]) == Entry(p, data[offset..])
  {
    ok, p, offset := false, Peer([], []), start;
    TakeAt(data, start);
    if offset + 2 > |data| { return; }
    var addrLen := Get16(data[offset..offset + 2]);
    offset := offset + 2;
    if offset + addrLen + 2 > |data| {
      if offset + addrLen <= |data| { TakeAt(data, offset + addrLen); }
      return;
    }
    var vip := data[offset..offset + addrLen];
    offset := offset + addrLen;
    TakeAt(data, offset);
    var addrStrLen := Get16(data[offset..offset + 2]);
    offset := offset + 2;
    if offset + addrStrLen > |data| { return; }
    p := Peer(vip, data[offset..offset + addrStrLen]);
    offset := offset + addrStrLen;
    ok := true;
  }

  /** unmarshalPeerList: entries appended while the count lasts and the bytes do. */
  method UnmarshalPeerList(data: Bytes) returns (r: Result<seq<Peer>>)
    ensures r == DecodePeers(data)
  {
    hide TakeEntry;
    if |data| < 2 { return Err; }
    var count := Get16(data[0..2]);
    assert data[0..2] == data[..2];
    var peers: seq<Peer> := [];
    var offset := 2;
    for i := 0 to count
      invariant 2 <= offset <= |data|
      invariant DecodeEntries(data[2..], count) == peers + DecodeEntries(data[offset..], count - i)
    {
      var ok, p, next := UnmarshalEntry(data, offset);
      assert peers + [] == peers;
      if !ok { break; }
      assert peers + ([p] + DecodeEntries(data[next..], count - i - 1))
          == peers + [p] + DecodeEntries(data[next..], count - i - 1);
      peers := peers + [p];
      offset := next;
    }
    r := Ok(peers);
  }

  /** The list as the receiver sees it. */
  function OnWire(list: seq<Peer>): (r: seq<Peer>)
    ensures |r| == |list|
  {
    seq(|list|, i requires 0 <= i < |list| => Peer(Wire(list[i].vip), list[i].addr))
  }

  ghost predicate ShortAddrs(list: seq<Peer>) {
    forall i :: 0 <= i < |list| ==> |list[i].addr| < U16
  }

  /** One complete entry in front of anything. */
  lemma TakeEncoded(p: Peer, rest: Bytes)
    requires |p.addr| < U16
    ensures TakeEntry(EncodeEntry(p) + rest) == Entry(Peer(Wire(p.vip), p.addr), rest)
  {
    assert EncodeEntry(p) + rest == Prefixed(Wire(p.vip)) + (Prefixed(p.addr) + rest);
    TakePrefixed(Wire(p.vip), Prefixed(p.addr) + rest);
    TakePrefixed(p.addr, rest);
  }

  /** An entry cut anywhere yields nothing. */
  lemma TakeEncodedCut(p: Peer, k: nat)
    requires k < |EncodeEntry(p)| && |p.addr| < U16
    ensures TakeEntry(EncodeEntry(p)[..k]) == NoEntry
  {
    var vip := Prefixed(Wire(p.vip));
    if k < |vip| {
      assert EncodeEntry(p)[..k] == vip[..k];
      TakeCut(Wire(p.vip), k);
    } else {
      var cut := Prefixed(p.addr)[..k - |vip|];
      assert EncodeEntry(p)[..k] == vip + cut;
      TakePrefixed(Wire(p.vip), cut);
      TakeCut(p.addr, k - |vip|);
    }
  }

  /** How many entries of the list are complete within its first k bytes. */
  function Complete(list: seq<Peer>, k: nat): (m: nat)
    ensures m <= |list|
  {
    if list == [] || k < |EncodeEntry(list[0])| then 0
    else 1 + Complete(list[1..], k - |EncodeEntry(list[0])|)
  }

  lemma PrefixSize(list: seq<Peer>, m: nat)
    requires 1 <= m <= |list|
    ensures |EncodeEntries(list[..m])| == |EncodeEntry(list[0])| + |EncodeEntries(list[1..][..m - 1])|
  {
    assert list[..m][1..] == list[1..][..m - 1];
  }

  /** Complete is the largest number of entries whose encoding takes at most k bytes. */
  lemma {:induction false} CompleteIsLargest(list: seq<Peer>, k: nat)
    ensures |EncodeEntries(list[..Complete(list, k)])| <= k
    ensures forall m :: Complete(list, k) < m <= |list| ==> k < |EncodeEntries(list[..m])|
  {
    hide EncodeEntries, EncodeEntry;
    NoEntries();
    assert list[..0] == [];
    if list != [] {
      var e := |EncodeEntry(list[0])|;
      forall m | 1 <= m <= |list|
        ensures |EncodeEntries(list[..m])| == e + |EncodeEntries(list[1..][..m - 1])|
      {
        PrefixSize(list, m);
      }
      if e <= k { CompleteIsLargest(list[1..], k - e); }
    }
  }

  /** Decoding a truncated run of entries yields the entries that are complete, in order. */
  lemma {:induction false} DecodeTruncatedEntries(list: seq<Peer>, k: nat, count: nat)
    requires ShortAddrs(list) && k <= |EncodeEntries(list)| && |list| <= count
    ensures DecodeEntries(EncodeEntries(list)[..k], count) == OnWire(list)[..Complete(list, k)]
  {
    hide EncodeEntries, EncodeEntry, DecodeEntries, OnWire, Complete;
    if list == [] || k < |EncodeEntry(list[0])| {
      DecodeNone(list, k, count);
    } else {
      EntriesCons(list);
      DecodeTruncatedEntries(list[1..], k - |EncodeEntry(list[0])|, count - 1);
      DecodeOneMore(list, k, count);
    }
  }

  lemma DecodeNone(list: seq<Peer>, k: nat, count: nat)
    requires ShortAddrs(list) && k <= |EncodeEntries(list)|
    requires list == [] || k < |EncodeEntry(list[0])|
    ensures DecodeEntries(EncodeEntries(list)[..k], count) == OnWire(list)[..Complete(list, k)]
  {
    var data := EncodeEntries(list)[..k];
    if list != [] {
      assert data == EncodeEntry(list[0])[..k];
      TakeEncodedCut(list[0], k);
    }
    assert TakeEntry(data) == NoEntry;
    hide TakeEntry, EncodeEntry;
    assert DecodeEntries(data, count) == [];
  }

  lemma DecodeOneMore(list: seq<Peer>, k: nat, count: nat)
    requires ShortAddrs(list) && list != [] && |EncodeEntry(list[0])| <= k <= |EncodeEntries(list)| && count > 0
    requires
      var n := |EncodeEntry(list[0])|;
      k - n <= |EncodeEntries(list[1..])|
      && DecodeEntries(EncodeEntries(list[1..])[..k - n], count - 1) == OnWire(list[1..])[..Complete(list[1..], k - n)]
    ensures DecodeEntries(EncodeEntries(list)[..k], count) == OnWire(list)[..Complete(list, k)]
  {
    hide TakeEntry, EncodeEntry, OnWire, Complete, EncodeEntries, DecodeEntries;
    var e, data := EncodeEntry(list[0]), EncodeEntries(list)[..k];
    var tail, first := EncodeEntries(list[1..])[..k - |e|], Peer(Wire(list[0].vip), list[0].addr);
    EntriesCons(list);
    assert data == e + tail;
    TakeEncoded(list[0], tail);
    DecodeStep(data, count, first, tail);
    CompleteStep(list, k);
    OnWireStep(list, Complete(list[1..], k - |e|));
  }

  lemma DecodeStep(data: Bytes, count: nat, p: Peer, after: Bytes)
    requires count > 0 && TakeEntry(data) == Entry(p, after)
    ensures DecodeEntries(data, count) == [p] + DecodeEntries(after, count - 1)
  {
  }

  lemma CompleteStep(list: seq<Peer>, k: nat)
    requires list != [] && |EncodeEntry(list[0])| <= k
    ensures Complete(list, k) == 1 + Complete(list[1..], k - |EncodeEntry(list[0])|)
  {
  }

  lemma OnWireStep(list: seq<Peer>, m: nat)
    requires m < |list|
    ensures OnWire(list)[..m + 1] == [Peer(Wire(list[0].vip), list[0].addr)] + OnWire(list[1..])[..m]
  {
  }

  /** unmarshalPeerList on a marshalled list cut to k >= 2 bytes: exactly the entries that
      still fit, so a prefix of the list and never a corrupted entry. */
  lemma DecodeTruncatedPeers(list: seq<Peer>, k: nat) returns (m: nat)
    requires |list| < U16 && ShortAddrs(list) && 2 <= k <= |EncodePeers(list)|
    ensures m <= |list| && DecodePeers(EncodePeers(list)[..k]) == Ok(OnWire(list)[..m])
    ensures |EncodePeers(list[..m])| <= k
    ensures forall n :: m < n <= |list| ==> k < |EncodePeers(list[..n])|
  {
    var data := EncodePeers(list)[..k];
    assert data[..2] == Put16(|list|) && data[2..] == EncodeEntries(list)[..k - 2];
    Get16Put16(|list|);
    m := Complete(list, k - 2);
    DecodeTruncatedEntries(list, k - 2, |list|);
    CompleteIsLargest(list, k - 2);
  }

  /** The whole list comes back. */
  lemma DecodeEncodePeers(list: seq<Peer>)
    requires |list| < U16 && ShortAddrs(list)
    ensures DecodePeers(EncodePeers(list)) == Ok(OnWire(list))
  {
    var m := DecodeTruncatedPeers(list, |EncodePeers(list)|);
    assert EncodePeers(list)[..|EncodePeers(list)|] == EncodePeers(list);
    assert list[..|list|] == list;
    assert OnWire(list)[..m] == OnWire(list);
  }

  lemma {:induction false} EntriesBound(list: seq<Peer>, bound: nat)
    requires forall i :: 0 <= i < |list| ==> |Wire(list[i].vip)| + |list[i].addr| <= bound
    ensures |EncodeEntries(list)| <= |list| * (4 + bound)
  {
    hide EncodeEntries, EncodeEntry, Wire;
    if list == [] {
      NoEntries();
    } else {
      EntriesBound(list[1..], bound);
      EntriesCons(list);
      EntrySize(list[0]);
      assert |list| * (4 + bound) == (4 + bound) + (|list| - 1) * (4 + bound);
    }
  }

  lemma EntrySize(p: Peer)
    ensures |EncodeEntry(p)| == 4 + |Wire(p.vip)| + |p.addr|
  {
  }

  /** Where each field of a peer list stands: the count, and then for each entry two lengths, each in
      front of its text. */
  lemma ListLayout(list: seq<Peer>)
    requires list != []
    ensures
      var data, n, m := EncodePeers(list), |Wire(list[0].vip)|, |list[0].addr|;
      && |data| >= 6 + n + m
      && data[0] == |list| / 256 % 256 && data[1] == |list| % 256
      && data[2] == 0 && data[3] == n && data[4..4 + n] == Wire(list[0].vip)
      && data[4 + n] == m / 256 % 256 && data[5 + n] == m % 256 && data[6 + n..6 + n + m] == list[0].addr
      && data[6 + n + m..] == EncodePeers(list[1..])[2..]
  {
    hide Wire, EncodeEntries;
    var data, vip, addr := EncodePeers(list), Wire(list[0].vip), list[0].addr;
    EntriesCons(list);
    var rest := EncodeEntries(list[1..]);
    assert EncodePeers(list[1..])[2..] == rest;
    assert data == (Put16(|list|) + Put16(|vip|)) + vip + Put16(|addr|) + addr + rest;
  }

  // ---- register payloads -------------------------------------------------

  datatype Registration = Registration(community: Bytes, hostname: Bytes, port: nat)

  /** A Go slice expression out of range panics; that outcome is kept apart from an error. */
  datatype Parsed<+T> = Value(value: T) | TooShort | Panic

  function EncodeRegistration(r: Registration): Bytes {
    Prefixed(r.community) + Prefixed(r.hostname) + Put16(r.port)
  }

  function DecodeRegistration(data: Bytes): Parsed<Registration> {
    if |data| < 6 then TooShort
    else match TakeField(data)
      case Missing => Panic
      case Field(community, rest) =>
        match TakeField(rest)
        case Missing => Panic
        case Field(hostname, port) =>
          if |port| < 2 then Panic else Value(Registration(community, hostname, Get16(port[..2])))
  }

  method MarshalRegisterPayload(community: Bytes, hostname: Bytes, port: nat) returns (data: Bytes)
    requires port < U16
    ensures data == EncodeRegistration(Registration(community, hostname, port))
  {
    hide Put16, Prefixed;
    var comLen, hostLen := |community|, |hostname|;
    var buf := Make(2 + comLen + 2 + hostLen + 2);
    CopyPrefixed(buf, 0, community);
    CopyPrefixed(buf, 2 + comLen, hostname);
    Copy(buf, 4 + comLen + hostLen, Put16(port));
    data := buf[..];
    assert data == buf[..6 + comLen + hostLen];
  }

  /** A payload an edge marshals is read back as it was, without a panic. */
  lemma DecodeEncodeRegistration(r: Registration)
    requires |r.community| < U16 && |r.hostname| < U16 && r.port < U16
    ensures DecodeRegistration(EncodeRegistration(r)) == Value(r)
  {
    assert EncodeRegistration(r) == Prefixed(r.community) + (Prefixed(r.hostname) + Put16(r.port));
    TakePrefixed(r.community, Prefixed(r.hostname) + Put16(r.port));
    TakePrefixed(r.hostname, Put16(r.port));
    Get16Put16(r.port);
    assert Put16(r.port)[..2] == Put16(r.port);
  }

  /** unmarshalRegisterPayload checks the length of the payload but not those of its fields: one cut
      to fewer than six bytes is refused, and one cut anywhere behind makes it panic. */
  lemma CutRegistration(r: Registration, k: nat)
    requires |r.community| < U16 && |r.hostname| < U16 && k < |EncodeRegistration(r)|
    ensures DecodeRegistration(EncodeRegistration(r)[..k]) == if k < 6 then TooShort else Panic
  {
    hide Put16, Prefixed, TakeField;
    var community, hostname, port := Prefixed(r.community), Prefixed(r.hostname), Put16(r.port);
    var whole, n, m := EncodeRegistration(r), |Prefixed(r.community)|, |Prefixed(r.hostname)|;
    assert whole == community + (hostname + port);
    var cut := whole[..k];
    if k < n {
      assert cut == community[..k];
      TakeCut(r.community, k);
    } else {
      var after := (hostname + port)[..k - n];
      assert cut == community + after;
      TakePrefixed(r.community, after);
      if k < n + m {
        assert after == hostname[..k - n];
        TakeCut(r.hostname, k - n);
      } else {
        assert after == hostname + port[..k - n - m];
        TakePrefixed(r.hostname, port[..k - n - m]);
      }
    }
  }

  /** The register payload is the two texts, each behind its length, and the port. */
  lemma RegistrationLayout(r: Registration)
    ensures
      var data, n, m := EncodeRegistration(r), |r.community|, |r.hostname|;
      && |data| == 6 + n + m
      && data[0] == n / 256 % 256 && data[1] == n % 256 && data[2..2 + n] == r.community
      && data[2 + n] == m / 256 % 256 && data[3 + n] == m % 256 && data[4 + n..4 + n + m] == r.hostname
      && data[4 + n + m] == r.port / 256 % 256 && data[5 + n + m] == r.port % 256
  {
    var data, n, m := EncodeRegistration(r), |r.community|, |r.hostname|;
    assert data == Put16(n) + r.community + Put16(m) + r.hostname + Put16(r.port);
  }
}
