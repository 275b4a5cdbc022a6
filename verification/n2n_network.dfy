/** One supernode and any number of edges over a network that may lose, duplicate, delay and
    reorder datagrams: whatever was ever sent can be delivered any number of times, at any
    moment, or never. */
module N2nNetwork {
  import opened Bytes
  import opened IP
  import opened N2nProtocol
  import opened N2nSupernode
  import Leases = N2nLease
  import opened N2nEdge

  datatype Config = Config(base: Bytes, community: Bytes, superAddr: Addr)

  datatype Phase = Idle | Waiting | Running | Stopped

  datatype Proc = Proc(phase: Phase, e: EdgeState)

  datatype Datagram = Datagram(src: Addr, dst: Addr, data: Bytes)

  datatype System = System(node: Leases.Node, edges: map<Addr, Proc>, net: set<Datagram>)

  datatype Step =
    | Timer(n: Leases.Step)                                             // clock, cleanup, second half of a Bye
    | RecvRegister(d: Datagram, tid: nat, pkt: Packet, reg: Registration)
    | Insert(tid: nat, order: seq<Bytes>)                              // second half of a registration, and its ack
    | Broadcast(tid: nat)
    | RecvHeartbeat(d: Datagram, tid: nat, pkt: Packet)
    | Reply(tid: nat, order: seq<Bytes>)                               // second half of a heartbeat
    | RecvBye(d: Datagram, pkt: Packet)
    | RecvConnect(d: Datagram, pkt: Packet)                            // supernode handleP2PConnect
    | StartEdge(a: Addr, reg: Registration)
    | FinishEdge(d: Datagram)                                          // the edge's first read, in register
    | EdgeRecv(d: Datagram)
    | EdgeConnect(d: Datagram, pkt: Packet, local: Addr)               // edge handleP2PConnect
    | EdgeHeartbeat(a: Addr)
    | EdgeSend(a: Addr, to: Addr, dst: Bytes, payload: Bytes)
    | EdgeBye(a: Addr)
    | StopEdge(a: Addr)                                                // the process ends; it may start again

  /** A real address in host:port form together with a virtual address leaves room for 245
      peers in one payload: up to 259 characters over IPv4, 247 over IPv6. */
  ghost predicate ShortAddr(cfg: Config, a: Addr) {
    |cfg.base| + |a| <= 263
  }

  ghost predicate ValidConfig(cfg: Config, edges: set<Addr>) {
    ValidBase(cfg.base) && forall a <- edges :: ShortAddr(cfg, a)
  }

  ghost predicate Received(s: System, d: Datagram, pkt: Packet) {
    d in s.net && DecodePacket(d.data) == Ok(pkt)
  }

  ghost predicate IsRunning(s: System, a: Addr) {
    a in s.edges && s.edges[a].phase.Running?
  }

  /** The supernode's share of a step; a step of an edge lets its clock stand. */
  ghost function NodeStep(s: System, step: Step): Leases.Step {
    match step
    case Timer(n) => n
    case RecvRegister(d, tid, pkt, reg) => Leases.Alloc(tid, d.src, reg)
    case Insert(tid, order) => Leases.Insert(tid)
    case Broadcast(tid) => Leases.Announced(tid)
    case RecvHeartbeat(d, tid, pkt) => Leases.Refresh(tid, pkt, d.src)
    case Reply(tid, order) => Leases.Reply(tid)
    case RecvBye(d, pkt) => Leases.ByeRelease(Key(pkt.src))
    case _ => Leases.Tick(s.node.now)
  }

  ghost predicate Enabled(cfg: Config, s: System, step: Step)
    requires ValidBase(cfg.base)
  {
    && Leases.Enabled(cfg.base, s.node, NodeStep(s, step))
    && match step
       case Timer(n) => n.Tick? || n.ByeRemove? || n.SweepStart? || n.SweepSkip? || n.SweepRelease? || n.SweepRemove? || n.SweepEnd?
       case RecvRegister(d, tid, pkt, reg) =>
         Received(s, d, pkt) && d.dst == cfg.superAddr && pkt.kind == REGISTER
         && DecodeRegistration(pkt.payload) == Value(reg) && reg.community == cfg.community
       case Insert(tid, order) => Order(order, Leases.Apply(cfg.base, s.node, Leases.Insert(tid)).t.peers.Keys)
       case Broadcast(tid) => true
       case RecvHeartbeat(d, tid, pkt) => Received(s, d, pkt) && d.dst == cfg.superAddr && pkt.kind == HEARTBEAT
       case Reply(tid, order) => Order(order, s.node.t.peers.Keys)
       case RecvBye(d, pkt) => Received(s, d, pkt) && d.dst == cfg.superAddr && pkt.kind == BYE
       case RecvConnect(d, pkt) =>
         Received(s, d, pkt) && d.dst == cfg.superAddr && pkt.kind == P2P_CONNECT
         && s.node.section.Free? && Key(pkt.dst) in s.node.t.peers
       case StartEdge(a, reg) =>
         a in s.edges && s.edges[a].phase.Idle? && |reg.community| < U16 && |reg.hostname| < U16 && reg.port == 0
         && |EncodeRegistration(reg)| < U16
       case FinishEdge(d) => d in s.net && d.dst in s.edges && s.edges[d.dst].phase.Waiting?
       case EdgeRecv(d) => d in s.net && IsRunning(s, d.dst)
       case EdgeConnect(d, pkt, local) => Received(s, d, pkt) && IsRunning(s, d.dst) && pkt.kind == P2P_CONNECT
       case EdgeHeartbeat(a) => IsRunning(s, a)
       case EdgeSend(a, to, dst, payload) =>
         IsRunning(s, a) && (to == cfg.superAddr || (Key(dst) in s.edges[a].e.table && to == s.edges[a].e.table[Key(dst)]))
       case EdgeBye(a) => IsRunning(s, a)
       case StopEdge(a) => a in s.edges
  }

  /** The datagrams a step sends. */
  ghost function Sent(cfg: Config, s: System, step: Step): set<Datagram>
    requires ValidBase(cfg.base) && Enabled(cfg, s, step)
  {
    match step
    case Insert(tid, order) =>
      var g, peers := s.node.threads[tid], Leases.Apply(cfg.base, s.node, Leases.Insert(tid)).t.peers;
      {Datagram(cfg.superAddr, g.addr, EncodePacket(RegisterAck(g.vip, Listing(peers, order))))}
    case Broadcast(tid) =>
      var g := s.node.threads[tid];
      set p | p in Announce(s.node.t.peers, g.vip, g.addr) :: Datagram(cfg.superAddr, p.0, p.1)
    case Reply(tid, order) =>
      var g := s.node.threads[tid];
      {Datagram(cfg.superAddr, g.addr, EncodePacket(HeartbeatAck(g.request, Listing(s.node.t.peers, order))))}
    case RecvConnect(d, pkt) =>
      var addr := s.node.t.peers[Key(pkt.dst)].addr;
      {Datagram(cfg.superAddr, d.src, EncodePacket(pkt.(kind := P2P_CONNECT_ACK, payload := addr))),
       Datagram(cfg.superAddr, addr, EncodePacket(Packet(P2P_CONNECT, pkt.dst, pkt.src, d.src)))}
    case StartEdge(a, reg) => {Datagram(a, cfg.superAddr, EncodePacket(Packet(REGISTER, [], [], EncodeRegistration(reg))))}
    case EdgeConnect(d, pkt, local) =>
      {Datagram(d.dst, pkt.payload, EncodePacket(Packet(P2P_CONNECT_ACK, s.edges[d.dst].e.vip, pkt.src, local)))}
    case EdgeHeartbeat(a) => {Datagram(a, cfg.superAddr, EncodePacket(Packet(HEARTBEAT, s.edges[a].e.vip, [], [])))}
    case EdgeSend(a, to, dst, payload) => {Datagram(a, to, EncodePacket(Packet(DATA, s.edges[a].e.vip, dst, payload)))}
    case EdgeBye(a) => {Datagram(a, cfg.superAddr, EncodePacket(Packet(BYE, s.edges[a].e.vip, [], [])))}
    case _ => {}
  }

  /** register on the first datagram read: an edge that gets anything but a readable ack stops. */
  function Finish(p: Proc, data: Bytes): Proc {
    match DecodePacket(data)
    case Err => p.(phase := Stopped)
    case Ok(pkt) =>
      if pkt.kind != REGISTER_ACK then p.(phase := Stopped)
      else match ReadAck(pkt.payload)
        case Value(ack) => Proc(Running, EdgeState(ack.vip, MergeAll(p.e.table, ack.peers)))
        case _ => p.(phase := Stopped)
  }

  ghost function Edges(s: System, step: Step): map<Addr, Proc> {
    match step
    case StartEdge(a, reg) => if a in s.edges then s.edges[a := s.edges[a].(phase := Waiting)] else s.edges
    case FinishEdge(d) => if d.dst in s.edges then s.edges[d.dst := Finish(s.edges[d.dst], d.data)] else s.edges
    case EdgeRecv(d) =>
      if d.dst in s.edges then s.edges[d.dst := s.edges[d.dst].(e := HandleDatagram(s.edges[d.dst].e, d.data))] else s.edges
    case StopEdge(a) => if a in s.edges then s.edges[a := Proc(Idle, EdgeState([], map[]))] else s.edges
    case _ => s.edges
  }

  ghost function Apply(cfg: Config, s: System, step: Step): System
    requires ValidBase(cfg.base) && Enabled(cfg, s, step)
  {
    System(Leases.Apply(cfg.base, s.node, NodeStep(s, step)), Edges(s, step), s.net + Sent(cfg, s, step))
  }

  ghost predicate Initial(s: System) {
    s.node == Leases.INIT && s.net == {} && forall a | a in s.edges :: s.edges[a] == Proc(Idle, EdgeState([], map[]))
  }

  ghost predicate Run(cfg: Config, states: seq<System>, steps: seq<Step>) {
    && |states| == |steps| + 1
    && Initial(states[0]) && ValidConfig(cfg, states[0].edges.Keys) && cfg.superAddr !in states[0].edges
    && forall i :: 0 <= i < |steps| ==> Enabled(cfg, states[i], steps[i]) && states[i + 1] == Apply(cfg, states[i], steps[i])
  }

  // ---- what is in the network --------------------------------------------

  /** The supernode's table as a map from virtual to real address. */
  function Directory(peers: map<Bytes, Lease>): Table {
    map k | k in peers :: peers[k].addr
  }

  /** The pair stood in one of the directories the supernode has had. */
  ghost predicate WasRegistered(past: set<Table>, k: Bytes, a: Addr) {
    exists t :: t in past && k in t && t[k] == a
  }

  /** The list is a directory written out in some order, short enough to travel whole. */
  ghost predicate Lists(cfg: Config, list: seq<Peer>, t: Table) {
    && |list| <= 245 && DistinctKeys(list)
    && (forall i :: 0 <= i < |list| ==> Travels(cfg, list[i], t))
    && (forall k :: k in t ==> exists i :: 0 <= i < |list| && Key(list[i].vip) == k)
  }

  ghost predicate Travels(cfg: Config, p: Peer, t: Table) {
    (|p.vip| == |cfg.base| || |p.vip| == 4) && ShortAddr(cfg, p.addr) && Key(p.vip) in t && t[Key(p.vip)] == p.addr
  }

  ghost predicate Snapshot(cfg: Config, past: set<Table>, list: seq<Peer>) {
    exists t :: t in past && Lists(cfg, list, t)
  }

  /** What a decoded packet of each kind can be, given the directories so far. No packet of
      the two hole-punching kinds is ever among them. */
  ghost predicate Genuine(cfg: Config, past: set<Table>, pkt: Packet) {
    || (pkt.kind == REGISTER && DecodeRegistration(pkt.payload).Value?)
    || (pkt.kind == REGISTER_ACK && exists vip, list ::
          pkt.payload == RegisterAckPayload(vip, list) && |vip| == |cfg.base| && Snapshot(cfg, past, list))
    || pkt.kind == HEARTBEAT
    || (pkt.kind == HEARTBEAT_ACK && exists list :: pkt.payload == EncodePeers(list) && Snapshot(cfg, past, list))
    || pkt.kind == DATA
    || (pkt.kind == PEER_LIST && exists p: Peer ::
          pkt.payload == EncodePeers([p]) && |p.vip| == |cfg.base| && ShortAddr(cfg, p.addr) && WasRegistered(past, Key(p.vip), p.addr))
    || pkt.kind == BYE
  }

  ghost predicate GenuineData(cfg: Config, past: set<Table>, data: Bytes) {
    exists pkt :: DecodePacket(data) == Ok(pkt) && Genuine(cfg, past, pkt)
  }

  ghost predicate GenuineNet(cfg: Config, past: set<Table>, net: set<Datagram>, edges: set<Addr>) {
    forall d <- net :: GenuineData(cfg, past, d.data) && (d.dst == cfg.superAddr ==> d.src in edges)
  }

  ghost predicate TruthfulTables(past: set<Table>, edges: map<Addr, Proc>) {
    forall a, k | a in edges && k in edges[a].e.table :: WasRegistered(past, k, edges[a].e.table[k])
  }

  ghost predicate TruthfulThread(cfg: Config, past: set<Table>, edges: set<Addr>, g: Leases.Thread) {
    && g.addr in edges
    && (g.Announcing? ==> |g.vip| == |cfg.base| && WasRegistered(past, Key(g.vip), g.addr))
  }

  ghost predicate TruthfulNode(cfg: Config, past: set<Table>, edges: set<Addr>, node: Leases.Node) {
    && Directory(node.t.peers) in past
    && (forall k | k in node.t.peers :: node.t.peers[k].addr in edges)
    && (forall i | i in node.threads :: TruthfulThread(cfg, past, edges, node.threads[i]))
  }

  ghost predicate Inv(cfg: Config, past: set<Table>, s: System) {
    && ValidConfig(cfg, s.edges.Keys) && cfg.superAddr !in s.edges
    && Leases.Inv(cfg.base, s.node)
    && TruthfulNode(cfg, past, s.edges.Keys, s.node)
    && GenuineNet(cfg, past, s.net, s.edges.Keys)
    && TruthfulTables(past, s.edges)
  }

  // ---- lists fit and arrive whole ----------------------------------------

  lemma ListsFit(cfg: Config, list: seq<Peer>, t: Table)
    requires ValidBase(cfg.base) && Lists(cfg, list, t)
    ensures |EncodePeers(list)| <= 65417 && ShortAddrs(list)
  {
    hide EncodeEntries, Key, DistinctKeys;
    forall i | 0 <= i < |list| ensures |Wire(list[i].vip)| + |list[i].addr| <= 263 && |list[i].addr| < U16 {
      assert Travels(cfg, list[i], t);
    }
    EntriesBound(list, 263);
  }

  /** A snapshot written by the supernode is read back entry for entry. */
  lemma SnapshotArrives(cfg: Config, list: seq<Peer>, t: Table)
    requires ValidBase(cfg.base) && Lists(cfg, list, t)
    ensures DecodePeers(EncodePeers(list)) == Ok(OnWire(list)) && Lists(cfg, OnWire(list), t)
  {
    ListsFit(cfg, list, t);
    DecodeEncodePeers(list);
    forall i | 0 <= i < |list| ensures Key(OnWire(list)[i].vip) == Key(list[i].vip) && Travels(cfg, OnWire(list)[i], t) {
      assert Travels(cfg, list[i], t);
      KeyOfWire(list[i].vip);
    }
    forall k | k in t ensures exists i :: 0 <= i < |OnWire(list)| && Key(OnWire(list)[i].vip) == k {
      var i :| 0 <= i < |list| && Key(list[i].vip) == k;
      assert Key(OnWire(list)[i].vip) == k;
    }
  }

  /** The supernode's listing of its table, in any order, is a snapshot. */
  lemma ListingLists(cfg: Config, n: Leases.Node, edges: set<Addr>, order: seq<Bytes>)
    requires ValidConfig(cfg, edges) && Leases.Inv(cfg.base, n) && Order(order, n.t.peers.Keys)
    requires forall k | k in n.t.peers :: n.t.peers[k].addr in edges
    ensures Lists(cfg, Listing(n.t.peers, order), Directory(n.t.peers))
  {
    var list, t := Listing(n.t.peers, order), Directory(n.t.peers);
    OrderLength(order, n.t.peers.Keys);
    Leases.PeersFitPool(cfg.base, n);
    assert Leases.Keyed(cfg.base, n);
    forall i | 0 <= i < |list| ensures Key(list[i].vip) == order[i] && Travels(cfg, list[i], t) {
      assert order[i] in order;
    }
    forall k | k in t ensures exists i :: 0 <= i < |list| && Key(list[i].vip) == k {
      assert k in order;
      var i :| 0 <= i < |order| && order[i] == k;
      assert Key(list[i].vip) == k;
    }
  }

  // ---- packets are genuine when sent, and stay so ------------------------

  lemma GenuineGrows(cfg: Config, past: set<Table>, more: set<Table>, pkt: Packet)
    requires past <= more && Genuine(cfg, past, pkt)
    ensures Genuine(cfg, more, pkt)
  {
    hide Lists, DecodeRegistration, RegisterAckPayload, EncodePeers, Key;
  }

  /** Marshalling a packet whose payload fits puts exactly that packet on the wire. */
  lemma SendGenuine(cfg: Config, past: set<Table>, pkt: Packet)
    requires |pkt.payload| < U16 || pkt.kind == DATA
    requires Genuine(cfg, past, pkt)
    ensures GenuineData(cfg, past, EncodePacket(pkt))
  {
    hide DecodePacket, EncodePacket, Snapshot, DecodeRegistration, SrcOnWire, DstOnWire;
    DecodeEncodeWhole(pkt);
    var got := Packet(pkt.kind, SrcOnWire(pkt), DstOnWire(pkt), pkt.payload[..|pkt.payload| % U16]);
    assert DecodePacket(EncodePacket(pkt)) == Ok(got);
    if |pkt.payload| < U16 {
      assert got.payload == pkt.payload;
    }
    assert Genuine(cfg, past, got);
  }

  lemma AckGenuine(cfg: Config, past: set<Table>, vip: Bytes, list: seq<Peer>, t: Table)
    requires ValidBase(cfg.base) && t in past && Lists(cfg, list, t) && |vip| == |cfg.base|
    ensures GenuineData(cfg, past, EncodePacket(RegisterAck(vip, list)))
  {
    hide Lists, EncodePacket, DecodePacket, EncodePeers;
    ListsFit(cfg, list, t);
    assert Snapshot(cfg, past, list);
    SendGenuine(cfg, past, RegisterAck(vip, list));
  }

  lemma HeartbeatAckGenuine(cfg: Config, past: set<Table>, request: Packet, list: seq<Peer>, t: Table)
    requires ValidBase(cfg.base) && t in past && Lists(cfg, list, t)
    ensures GenuineData(cfg, past, EncodePacket(HeartbeatAck(request, list)))
  {
    hide Lists, EncodePacket, DecodePacket, EncodePeers;
    ListsFit(cfg, list, t);
    assert Snapshot(cfg, past, list);
    SendGenuine(cfg, past, HeartbeatAck(request, list));
  }

  lemma UpdateGenuine(cfg: Config, past: set<Table>, vip: Bytes, addr: Addr)
    requires ValidBase(cfg.base) && |vip| == |cfg.base| && ShortAddr(cfg, addr) && WasRegistered(past, Key(vip), addr)
    ensures GenuineData(cfg, past, EncodePacket(PeerUpdate(vip, addr)))
  {
    var list := [Peer(vip, addr)];
    EntriesBound(list, 263);
    hide EncodePacket, DecodePacket, EncodePeers;
    assert list[0].vip == vip && list[0].addr == addr;
    SendGenuine(cfg, past, PeerUpdate(vip, addr));
  }

  lemma RegisterGenuine(cfg: Config, past: set<Table>, reg: Registration)
    requires |reg.community| < U16 && |reg.hostname| < U16 && reg.port == 0 && |EncodeRegistration(reg)| < U16
    ensures GenuineData(cfg, past, EncodePacket(Packet(REGISTER, [], [], EncodeRegistration(reg))))
  {
    hide EncodePacket, DecodePacket, EncodeRegistration, DecodeRegistration;
    DecodeEncodeRegistration(reg);
    SendGenuine(cfg, past, Packet(REGISTER, [], [], EncodeRegistration(reg)));
  }

  lemma DecodedIsGenuine(cfg: Config, past: set<Table>, s: System, d: Datagram, pkt: Packet)
    requires GenuineNet(cfg, past, s.net, s.edges.Keys) && Received(s, d, pkt)
    ensures Genuine(cfg, past, pkt)
  {
    hide Genuine, DecodePacket;
    assert GenuineData(cfg, past, d.data);
  }

  /** No step of either hole-punching handler is ever enabled. */
  lemma NoHolePunching(cfg: Config, past: set<Table>, s: System, step: Step)
    requires Inv(cfg, past, s) && Enabled(cfg, s, step)
    ensures !step.RecvConnect? && !step.EdgeConnect?
  {
    if step.RecvConnect? || step.EdgeConnect? {
      DecodedIsGenuine(cfg, past, s, step.d, step.pkt);
    }
  }

  // ---- every step keeps the invariant ------------------------------------

  /** The directory after a step joins the past. */
  ghost function Extended(cfg: Config, past: set<Table>, s: System, step: Step): set<Table>
    requires ValidBase(cfg.base) && Enabled(cfg, s, step)
  {
    past + {Directory(Apply(cfg, s, step).node.t.peers)}
  }

  lemma ThreadGrows(cfg: Config, past: set<Table>, more: set<Table>, edges: set<Addr>, g: Leases.Thread)
    requires past <= more && TruthfulThread(cfg, past, edges, g)
    ensures TruthfulThread(cfg, more, edges, g)
  {
  }

  /** The thread a step starts or changes is truthful in its turn. */
  lemma NewThreadTruthful(cfg: Config, past: set<Table>, s: System, step: Step)
    requires Inv(cfg, past, s) && Enabled(cfg, s, step)
    requires step.RecvRegister? || step.Insert? || step.RecvHeartbeat?
    ensures step.tid in Apply(cfg, s, step).node.threads
    ensures TruthfulThread(cfg, Extended(cfg, past, s, step), s.edges.Keys, Apply(cfg, s, step).node.threads[step.tid])
  {
    hide GenuineData, DecodePacket, DecodeRegistration, FirstFree, Key, ShortAddr, Leases.Indexed, Leases.Accounted, Order, TruthfulTables;
    if step.Insert? {
      var g, after := s.node.threads[step.tid], Directory(Apply(cfg, s, step).node.t.peers);
      assert TruthfulThread(cfg, past, s.edges.Keys, g);
      assert after[Key(g.vip)] == g.addr;
      assert WasRegistered(Extended(cfg, past, s, step), Key(g.vip), g.addr);
    }
  }

  lemma NodeStaysTruthful(cfg: Config, past: set<Table>, s: System, step: Step)
    requires Inv(cfg, past, s) && Enabled(cfg, s, step)
    ensures TruthfulNode(cfg, Extended(cfg, past, s, step), s.edges.Keys, Apply(cfg, s, step).node)
  {
    hide Received, DecodePacket, DecodeRegistration, FirstFree, Key, GenuineNet, ShortAddr;
    hide Leases.Inv, Order, TruthfulTables, TruthfulThread, Directory, Sent, Edges;
    var n, n' := s.node, Apply(cfg, s, step).node;
    var more := Extended(cfg, past, s, step);
    forall i | i in n'.threads ensures TruthfulThread(cfg, more, s.edges.Keys, n'.threads[i]) {
      if i in n.threads && n'.threads[i] == n.threads[i] {
        ThreadGrows(cfg, past, more, s.edges.Keys, n.threads[i]);
      } else {
        NewThreadTruthful(cfg, past, s, step);
      }
    }
    forall k | k in n'.t.peers ensures n'.t.peers[k].addr in s.edges.Keys {
      if step.Insert? { InsertedAddr(cfg, past, s, step.tid); }
    }
  }

  lemma InsertedAddr(cfg: Config, past: set<Table>, s: System, tid: nat)
    requires TruthfulNode(cfg, past, s.edges.Keys, s.node) && tid in s.node.threads
    ensures s.node.threads[tid].addr in s.edges.Keys
  {
    assert TruthfulThread(cfg, past, s.edges.Keys, s.node.threads[tid]);
  }

  lemma AnnounceGenuine(cfg: Config, past: set<Table>, s: System, tid: nat)
    requires Inv(cfg, past, s) && Enabled(cfg, s, Broadcast(tid))
    ensures GenuineNet(cfg, past, Sent(cfg, s, Broadcast(tid)), s.edges.Keys)
  {
    hide DecodePacket, EncodePacket, PeerUpdate, Genuine, Leases.Inv;
    var g := s.node.threads[tid];
    assert TruthfulThread(cfg, past, s.edges.Keys, g);
    UpdateGenuine(cfg, past, g.vip, g.addr);
  }

  lemma InsertSendsGenuine(cfg: Config, past: set<Table>, s: System, tid: nat, order: seq<Bytes>)
    requires Inv(cfg, past, s) && Enabled(cfg, s, Insert(tid, order))
    ensures GenuineNet(cfg, Extended(cfg, past, s, Insert(tid, order)), Sent(cfg, s, Insert(tid, order)), s.edges.Keys)
  {
    hide DecodePacket, EncodePacket, Genuine, Listing, Lists, RegisterAck, Key, Leases.Accounted, Leases.Indexed, TruthfulTables;
    var step := Insert(tid, order);
    var n', g := Apply(cfg, s, step).node, s.node.threads[tid];
    Leases.StepKeepsInv(cfg.base, s.node, Leases.Insert(tid));
    NodeStaysTruthful(cfg, past, s, step);
    ListingLists(cfg, n', s.edges.Keys, order);
    AckGenuine(cfg, Extended(cfg, past, s, step), g.vip, Listing(n'.t.peers, order), Directory(n'.t.peers));
    assert TruthfulThread(cfg, past, s.edges.Keys, g);
  }

  lemma ReplySendsGenuine(cfg: Config, past: set<Table>, s: System, tid: nat, order: seq<Bytes>)
    requires Inv(cfg, past, s) && Enabled(cfg, s, Reply(tid, order))
    ensures GenuineNet(cfg, Extended(cfg, past, s, Reply(tid, order)), Sent(cfg, s, Reply(tid, order)), s.edges.Keys)
  {
    hide DecodePacket, EncodePacket, Genuine, Listing, Lists, HeartbeatAck, Key, Leases.Accounted, Leases.Indexed, TruthfulTables;
    var g := s.node.threads[tid];
    assert TruthfulThread(cfg, past, s.edges.Keys, g);
    ListingLists(cfg, s.node, s.edges.Keys, order);
    var list := Listing(s.node.t.peers, order);
    HeartbeatAckGenuine(cfg, Extended(cfg, past, s, Reply(tid, order)), g.request, list, Directory(s.node.t.peers));
  }

  lemma SentIsGenuine(cfg: Config, past: set<Table>, s: System, step: Step)
    requires Inv(cfg, past, s) && Enabled(cfg, s, step)
    ensures GenuineNet(cfg, Extended(cfg, past, s, step), Sent(cfg, s, step), s.edges.Keys)
  {
    hide DecodePacket, EncodePacket, Genuine, Listing, Lists, DecodeRegistration, EncodeRegistration;
    hide RegisterAck, HeartbeatAck, Announce, Key, Leases.Inv, TruthfulNode, TruthfulTables;
    var more := Extended(cfg, past, s, step);
    match step
    case Insert(tid, order) => InsertSendsGenuine(cfg, past, s, tid, order);
    case Reply(tid, order) => ReplySendsGenuine(cfg, past, s, tid, order);
    case Broadcast(tid) =>
      AnnounceGenuine(cfg, past, s, tid);
      NetGrows(cfg, past, more, Sent(cfg, s, step), s.edges.Keys);
    case RecvConnect(_, _) => NoHolePunching(cfg, past, s, step);
    case EdgeConnect(_, _, _) => NoHolePunching(cfg, past, s, step);
    case StartEdge(a, reg) => RegisterGenuine(cfg, more, reg);
    case EdgeHeartbeat(a) => PlainGenuine(cfg, more, Packet(HEARTBEAT, s.edges[a].e.vip, [], []));
    case EdgeSend(a, to, dst, payload) => PlainGenuine(cfg, more, Packet(DATA, s.edges[a].e.vip, dst, payload));
    case EdgeBye(a) => PlainGenuine(cfg, more, Packet(BYE, s.edges[a].e.vip, [], []));
    case _ =>
  }

  lemma PlainGenuine(cfg: Config, past: set<Table>, pkt: Packet)
    requires pkt.kind == DATA || (pkt.kind in {HEARTBEAT, BYE} && pkt.payload == [])
    ensures GenuineData(cfg, past, EncodePacket(pkt))
  {
    hide EncodePacket, DecodePacket, Snapshot, DecodeRegistration;
    SendGenuine(cfg, past, pkt);
  }

  lemma NetGrows(cfg: Config, past: set<Table>, more: set<Table>, net: set<Datagram>, edges: set<Addr>)
    requires past <= more && GenuineNet(cfg, past, net, edges)
    ensures GenuineNet(cfg, more, net, edges)
  {
    hide Genuine, DecodePacket;
    forall d | d in net ensures GenuineData(cfg, more, d.data) {
      assert GenuineData(cfg, past, d.data);
      var pkt :| DecodePacket(d.data) == Ok(pkt) && Genuine(cfg, past, pkt);
      GenuineGrows(cfg, past, more, pkt);
    }
  }

  /** Merging a truthful list keeps a table truthful. */
  lemma MergeStaysTruthful(past: set<Table>, e: EdgeState, list: seq<Peer>)
    requires forall k | k in e.table :: WasRegistered(past, k, e.table[k])
    requires forall i :: 0 <= i < |list| ==> WasRegistered(past, Key(list[i].vip), list[i].addr)
    ensures forall k | k in Merge(e.table, e.vip, list) :: WasRegistered(past, k, Merge(e.table, e.vip, list)[k])
  {
    hide Merge, WasRegistered, Key;
    forall k | k in Merge(e.table, e.vip, list) ensures WasRegistered(past, k, Merge(e.table, e.vip, list)[k]) {
      MergeSource(e.table, e.vip, list, k);
    }
  }

  lemma SnapshotIsTruthful(cfg: Config, past: set<Table>, list: seq<Peer>)
    requires ValidBase(cfg.base) && Snapshot(cfg, past, list)
    ensures DecodePeers(EncodePeers(list)) == Ok(OnWire(list))
    ensures forall i :: 0 <= i < |OnWire(list)| ==> WasRegistered(past, Key(OnWire(list)[i].vip), OnWire(list)[i].addr)
  {
    hide DecodePeers, EncodePeers, OnWire, Key;
    var t :| t in past && Lists(cfg, list, t);
    SnapshotArrives(cfg, list, t);
    forall i | 0 <= i < |OnWire(list)| ensures WasRegistered(past, Key(OnWire(list)[i].vip), OnWire(list)[i].addr) {
      assert Travels(cfg, OnWire(list)[i], t);
    }
  }

  lemma UpdateIsTruthful(cfg: Config, past: set<Table>, p: Peer)
    requires ValidBase(cfg.base) && |p.vip| == |cfg.base| && ShortAddr(cfg, p.addr) && WasRegistered(past, Key(p.vip), p.addr)
    ensures DecodePeers(EncodePeers([p])) == Ok([Peer(Wire(p.vip), p.addr)])
    ensures WasRegistered(past, Key(Wire(p.vip)), p.addr)
  {
    hide DecodePeers, EncodePeers;
    DecodeEncodePeers([p]);
    KeyOfWire(p.vip);
    assert OnWire([p]) == [Peer(Wire(p.vip), p.addr)];
  }

  /** A running edge that handles a genuine datagram keeps a truthful table. */
  lemma HandleStaysTruthful(cfg: Config, past: set<Table>, e: EdgeState, data: Bytes)
    requires ValidBase(cfg.base) && GenuineData(cfg, past, data)
    requires forall k | k in e.table :: WasRegistered(past, k, e.table[k])
    ensures forall k | k in HandleDatagram(e, data).table :: WasRegistered(past, k, HandleDatagram(e, data).table[k])
  {
    hide DecodePacket, DecodePeers, EncodePeers, WasRegistered, Key, Wire, Merge, OnWire;
    hide Snapshot, RegisterAckPayload, DecodeRegistration, ShortAddr;
    var pkt :| DecodePacket(data) == Ok(pkt) && Genuine(cfg, past, pkt);
    if pkt.kind == HEARTBEAT_ACK {
      var list :| pkt.payload == EncodePeers(list) && Snapshot(cfg, past, list);
      SnapshotIsTruthful(cfg, past, list);
      MergeStaysTruthful(past, e, OnWire(list));
    } else if pkt.kind == PEER_LIST {
      var p: Peer :| pkt.payload == EncodePeers([p]) && |p.vip| == |cfg.base| && ShortAddr(cfg, p.addr)
                     && WasRegistered(past, Key(p.vip), p.addr);
      UpdateIsTruthful(cfg, past, p);
      MergeStaysTruthful(past, e, [Peer(Wire(p.vip), p.addr)]);
    }
  }

  /** An edge that finishes its registration on a genuine datagram does not panic; it is
      running exactly when the datagram is an ack, and its table is as it was. */
  lemma FinishLearnsNothing(cfg: Config, past: set<Table>, p: Proc, data: Bytes)
    requires ValidBase(cfg.base) && GenuineData(cfg, past, data)
    ensures Finish(p, data).e.table == p.e.table
    ensures DecodePacket(data).Ok?
    ensures DecodePacket(data).value.kind == REGISTER_ACK ==>
              ReadAck(DecodePacket(data).value.payload).Value? && Finish(p, data).phase.Running?
              && |Finish(p, data).e.vip| == |cfg.base|
  {
    hide DecodePacket, EncodePeers, Lists, RegisterAckPayload, ReadAck, DecodeRegistration;
    var pkt :| DecodePacket(data) == Ok(pkt) && Genuine(cfg, past, pkt);
    if pkt.kind == REGISTER_ACK {
      var vip, list :| pkt.payload == RegisterAckPayload(vip, list) && |vip| == |cfg.base| && Snapshot(cfg, past, list);
      var t :| t in past && Lists(cfg, list, t);
      ListsFit(cfg, list, t);
      assert |list| <= 245 by { ListsSize(cfg, list, t); }
      AckTeachesNothing(vip, list);
    }
  }

  lemma ListsSize(cfg: Config, list: seq<Peer>, t: Table)
    requires Lists(cfg, list, t)
    ensures |list| <= 245
  {
  }

  lemma EdgesStayTruthful(cfg: Config, past: set<Table>, s: System, step: Step)
    requires Inv(cfg, past, s) && Enabled(cfg, s, step)
    ensures TruthfulTables(past, Edges(s, step)) && Edges(s, step).Keys == s.edges.Keys
  {
    hide DecodePacket, HandleDatagram, Finish, Genuine, WasRegistered, DecodeRegistration, Leases.Inv, Leases.Enabled, Order, TruthfulNode;
    match step
    case FinishEdge(d) =>
      FinishLearnsNothing(cfg, past, s.edges[d.dst], d.data);
    case EdgeRecv(d) =>
      HandleStaysTruthful(cfg, past, s.edges[d.dst].e, d.data);
    case _ =>
  }

  lemma TablesGrow(past: set<Table>, more: set<Table>, edges: map<Addr, Proc>)
    requires past <= more && TruthfulTables(past, edges)
    ensures TruthfulTables(more, edges)
  {
  }

  lemma StepKeepsInv(cfg: Config, past: set<Table>, s: System, step: Step)
    requires Inv(cfg, past, s) && Enabled(cfg, s, step)
    ensures Inv(cfg, Extended(cfg, past, s, step), Apply(cfg, s, step))
  {
    hide TruthfulTables, GenuineNet, TruthfulNode, Leases.Inv, Leases.Enabled, Leases.Apply, Sent, Edges, NodeStep, Directory;
    var more := Extended(cfg, past, s, step);
    Leases.StepKeepsInv(cfg.base, s.node, NodeStep(s, step));
    NodeStaysTruthful(cfg, past, s, step);
    SentIsGenuine(cfg, past, s, step);
    NetGrows(cfg, past, more, s.net, s.edges.Keys);
    NetUnion(cfg, more, s.net, Sent(cfg, s, step), s.edges.Keys);
    EdgesStayTruthful(cfg, past, s, step);
    TablesGrow(past, more, Edges(s, step));
  }

  lemma NetUnion(cfg: Config, past: set<Table>, net: set<Datagram>, sent: set<Datagram>, edges: set<Addr>)
    requires GenuineNet(cfg, past, net, edges) && GenuineNet(cfg, past, sent, edges)
    ensures GenuineNet(cfg, past, net + sent, edges)
  {
    hide GenuineData;
  }

  // ---- whole runs --------------------------------------------------------

  /** The directories the supernode has had up to moment i. */
  ghost function Past(states: seq<System>, i: nat): set<Table>
    requires i < |states|
  {
    set j | 0 <= j <= i :: Directory(states[j].node.t.peers)
  }

  lemma PastGrows(cfg: Config, states: seq<System>, steps: seq<Step>, i: nat)
    requires Run(cfg, states, steps) && i < |steps|
    ensures Past(states, i + 1) == Extended(cfg, Past(states, i), states[i], steps[i])
  {
    hide Directory, Enabled, Apply;
    forall t | t in Past(states, i + 1) ensures t in Past(states, i) || t == Directory(states[i + 1].node.t.peers) {
      var j :| 0 <= j <= i + 1 && t == Directory(states[j].node.t.peers);
    }
    assert states[i + 1] == Apply(cfg, states[i], steps[i]);
    assert Directory(states[i + 1].node.t.peers) in Past(states, i + 1);
    forall t | t in Past(states, i) ensures t in Past(states, i + 1) {
      var j :| 0 <= j <= i && t == Directory(states[j].node.t.peers);
    }
  }

  lemma InitialInv(cfg: Config, states: seq<System>)
    requires |states| > 0 && Initial(states[0])
    requires ValidConfig(cfg, states[0].edges.Keys) && cfg.superAddr !in states[0].edges
    ensures Inv(cfg, Past(states, 0), states[0])
  {
    assert Directory(states[0].node.t.peers) in Past(states, 0);
  }

  lemma {:induction false} RunKeepsInv(cfg: Config, states: seq<System>, steps: seq<Step>, i: nat)
    requires Run(cfg, states, steps) && i < |states|
    ensures Inv(cfg, Past(states, i), states[i])
  {
    hide Inv, Past, Apply, Enabled, Initial, ValidConfig, Extended;
    if i == 0 {
      InitialInv(cfg, states);
    } else {
      RunKeepsInv(cfg, states, steps, i - 1);
      StepKeepsInv(cfg, Past(states, i - 1), states[i - 1], steps[i - 1]);
      PastGrows(cfg, states, steps, i - 1);
    }
  }

  /** In every run, every pair in any edge's table stood in the supernode's own table at some
      moment no later than now. */
  lemma TablesWereRegistered(cfg: Config, states: seq<System>, steps: seq<Step>, i: nat, a: Addr, k: Bytes)
    requires Run(cfg, states, steps) && i < |states| && a in states[i].edges && k in states[i].edges[a].e.table
    ensures exists j :: 0 <= j <= i && k in states[j].node.t.peers
                        && states[j].node.t.peers[k].addr == states[i].edges[a].e.table[k]
  {
    hide Run;
    RunKeepsInv(cfg, states, steps, i);
    var t :| t in Past(states, i) && k in t && t[k] == states[i].edges[a].e.table[k];
    var j :| 0 <= j <= i && t == Directory(states[j].node.t.peers);
    assert k in states[j].node.t.peers;
  }

  /** The table after agrees with t on every address but the edge's own, and is otherwise kept. */
  ghost predicate Agrees(before: Table, after: Table, own: Bytes, t: Table) {
    forall k :: if k in t && k != Key(own) then k in after && after[k] == t[k]
                else (k in after <==> k in before) && (k in after ==> after[k] == before[k])
  }

  /** After a HeartbeatAck is handled, the edge's table agrees with one of the supernode's
      earlier tables on every virtual IP but the edge's own, and is otherwise unchanged. */
  lemma HeartbeatAckAgrees(cfg: Config, states: seq<System>, steps: seq<Step>, i: nat, pkt: Packet) returns (j: nat)
    requires Run(cfg, states, steps) && i < |steps| && steps[i].EdgeRecv?
    requires DecodePacket(steps[i].d.data) == Ok(pkt) && pkt.kind == HEARTBEAT_ACK
    ensures j <= i
    ensures
      var a := steps[i].d.dst;
      Agrees(states[i].edges[a].e.table, states[i + 1].edges[a].e.table, states[i].edges[a].e.vip,
             Directory(states[j].node.t.peers))
  {
    hide Inv, Apply, Enabled, Agrees, DecodePacket, HandleDatagram, Initial, ValidConfig;
    RunKeepsInv(cfg, states, steps, i);
    EdgeRecvStep(cfg, states, steps, i);
    var e := states[i].edges[steps[i].d.dst].e;
    var t := AckAgrees(cfg, Past(states, i), e, steps[i].d.data, pkt);
    j :| 0 <= j <= i && t == Directory(states[j].node.t.peers);
  }

  lemma EdgeRecvStep(cfg: Config, states: seq<System>, steps: seq<Step>, i: nat)
    requires Run(cfg, states, steps) && i < |steps| && steps[i].EdgeRecv? && Inv(cfg, Past(states, i), states[i])
    ensures
      var d := steps[i].d;
      && d.dst in states[i].edges && d.dst in states[i + 1].edges
      && states[i + 1].edges[d.dst].e == HandleDatagram(states[i].edges[d.dst].e, d.data)
      && GenuineData(cfg, Past(states, i), d.data) && ValidBase(cfg.base)
  {
    hide HandleDatagram, GenuineData, Leases.Inv, Leases.Apply, TruthfulNode, TruthfulTables, Past;
    assert Enabled(cfg, states[i], steps[i]) && states[i + 1] == Apply(cfg, states[i], steps[i]);
  }

  lemma AckAgrees(cfg: Config, past: set<Table>, e: EdgeState, data: Bytes, pkt: Packet) returns (t: Table)
    requires ValidBase(cfg.base) && GenuineData(cfg, past, data)
    requires DecodePacket(data) == Ok(pkt) && pkt.kind == HEARTBEAT_ACK
    ensures t in past && Agrees(e.table, HandleDatagram(e, data).table, e.vip, t)
  {
    hide Merge, Key, DecodePacket, DecodePeers, EncodePeers, OnWire, Lists;
    var list :| pkt.payload == EncodePeers(list) && Snapshot(cfg, past, list);
    t :| t in past && Lists(cfg, list, t);
    SnapshotArrives(cfg, list, t);
    ListMergeAgrees(cfg, e.table, e.vip, OnWire(list), t);
    assert HandleDatagram(e, data).table == Merge(e.table, e.vip, OnWire(list));
  }

  lemma ListMergeAgrees(cfg: Config, table: Table, own: Bytes, list: seq<Peer>, t: Table)
    requires Lists(cfg, list, t)
    ensures Agrees(table, Merge(table, own, list), own, t)
  {
    hide Merge, Key, ShortAddr;
    MergeAgrees(table, own, list);
    forall k | k in t ensures exists i :: 0 <= i < |list| && Key(list[i].vip) == k && list[i].addr == t[k] {
      var i :| 0 <= i < |list| && Key(list[i].vip) == k;
      assert Travels(cfg, list[i], t);
    }
    forall i | 0 <= i < |list| ensures Key(list[i].vip) in t {
      assert Travels(cfg, list[i], t);
    }
  }

  /** Registration never adds a peer to an edge's table, and no datagram of any run makes
      register or the supernode's payload parser panic. */
  lemma RegistrationTeachesNothing(cfg: Config, states: seq<System>, steps: seq<Step>, i: nat)
    requires Run(cfg, states, steps) && i < |steps| && steps[i].FinishEdge?
    ensures
      var a, pkt := steps[i].d.dst, DecodePacket(steps[i].d.data);
      && states[i + 1].edges[a].e.table == states[i].edges[a].e.table
      && pkt.Ok? && (pkt.value.kind == REGISTER_ACK ==> states[i + 1].edges[a].phase.Running?)
  {
    RunKeepsInv(cfg, states, steps, i);
    hide Finish, DecodePacket, Leases.Inv, TruthfulNode, TruthfulTables, Leases.Enabled, Leases.Apply, Genuine;
    FinishLearnsNothing(cfg, Past(states, i), states[i].edges[steps[i].d.dst], steps[i].d.data);
  }

  lemma NoDatagramPanics(cfg: Config, states: seq<System>, steps: seq<Step>, i: nat, d: Datagram)
    requires Run(cfg, states, steps) && i < |states| && d in states[i].net
    ensures DecodePacket(d.data).Ok?
    ensures
      var pkt := DecodePacket(d.data).value;
      && pkt.kind != P2P_CONNECT && pkt.kind != P2P_CONNECT_ACK
      && (pkt.kind == REGISTER ==> DecodeRegistration(pkt.payload).Value?)
      && (pkt.kind == REGISTER_ACK ==> ReadAck(pkt.payload).Value?)
  {
    RunKeepsInv(cfg, states, steps, i);
    hide DecodePacket, Run, DecodeRegistration, ReadAck, EncodePeers, RegisterAckPayload;
    assert GenuineData(cfg, Past(states, i), d.data);
    FinishLearnsNothing(cfg, Past(states, i), Proc(Idle, EdgeState([], map[])), d.data);
  }

  /** The supernode inside the network runs as it does alone, so every theorem about its
      leases holds here: the projection of a run is a run. */
  lemma NodeRun(cfg: Config, states: seq<System>, steps: seq<Step>)
    returns (nodes: seq<Leases.Node>, nodeSteps: seq<Leases.Step>)
    requires Run(cfg, states, steps)
    ensures Leases.Run(cfg.base, nodes, nodeSteps)
    ensures |nodes| == |states| && forall i :: 0 <= i < |states| ==> nodes[i] == states[i].node
    ensures forall i :: 0 <= i < |steps| ==> nodeSteps[i] == NodeStep(states[i], steps[i])
  {
    nodes := seq(|states|, i requires 0 <= i < |states| => states[i].node);
    nodeSteps := seq(|steps|, i requires 0 <= i < |steps| => NodeStep(states[i], steps[i]));
    forall i | 0 <= i < |steps|
      ensures Leases.Enabled(cfg.base, nodes[i], nodeSteps[i]) && nodes[i + 1] == Leases.Apply(cfg.base, nodes[i], nodeSteps[i])
    {
      assert Enabled(cfg, states[i], steps[i]) && states[i + 1] == Apply(cfg, states[i], steps[i]);
    }
  }
}
