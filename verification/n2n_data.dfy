/** The payloads of the overlay: what an edge's onData is given in any run of the network. */
module N2nData {
  import opened Bytes
  import opened IP
  import opened N2nProtocol
  import opened N2nSupernode
  import Leases = N2nLease
  import opened N2nEdge
  import opened N2nNetwork
  import opened Options

  // ---- where a datagram comes from ---------------------------------------

  /** Whatever is in the network was sent by an earlier step. */
  lemma {:induction false} Origin(cfg: Config, states: seq<System>, steps: seq<Step>, i: nat, d: Datagram) returns (k: nat)
    requires Run(cfg, states, steps) && i < |states| && d in states[i].net
    ensures k < i && k < |steps| && ValidBase(cfg.base) && Enabled(cfg, states[k], steps[k]) && d in Sent(cfg, states[k], steps[k])
  {
    hide Enabled, Sent, Edges;
    if d in states[i - 1].net {
      k := Origin(cfg, states, steps, i - 1, d);
    } else {
      k := i - 1;
      assert Enabled(cfg, states[k], steps[k]) && states[k + 1] == Apply(cfg, states[k], steps[k]);
    }
  }

  /** The kind of packet each step sends. */
  function KindOf(step: Step): Option<byte> {
    match step
    case Insert(_, _) => Some(REGISTER_ACK)
    case Broadcast(_) => Some(PEER_LIST)
    case Reply(_, _) => Some(HEARTBEAT_ACK)
    case StartEdge(_, _) => Some(REGISTER)
    case EdgeHeartbeat(_) => Some(HEARTBEAT)
    case EdgeSend(_, _, _, _) => Some(DATA)
    case EdgeBye(_) => Some(BYE)
    case _ => None
  }

  lemma SentHasKind(cfg: Config, past: set<Table>, s: System, step: Step, d: Datagram)
    requires Inv(cfg, past, s) && Enabled(cfg, s, step) && d in Sent(cfg, s, step)
    ensures exists pkt :: d.data == EncodePacket(pkt) && KindOf(step) == Some(pkt.kind)
  {
    hide EncodePacket, Leases.Enabled, Leases.Inv, Leases.Apply, TruthfulTables, TruthfulNode, Listing, EncodePeers, Received, GenuineNet;
    NoHolePunching(cfg, past, s, step);
  }

  lemma DecodedKind(cfg: Config, past: set<Table>, s: System, step: Step, d: Datagram)
    requires Inv(cfg, past, s) && Enabled(cfg, s, step) && d in Sent(cfg, s, step)
    ensures DecodePacket(d.data).Ok? && KindOf(step) == Some(DecodePacket(d.data).value.kind)
  {
    hide Inv, Enabled, Sent, DecodePacket, EncodePacket, KindOf;
    SentHasKind(cfg, past, s, step, d);
    var pkt :| d.data == EncodePacket(pkt) && KindOf(step) == Some(pkt.kind);
    DecodeEncodeWhole(pkt);
  }

  // ---- peer updates ------------------------------------------------------

  /** After an edge handles a datagram that a broadcast sent, its table has the new peer at its real
      address, unless the new peer goes by the edge's own virtual address, and is otherwise as it
      was. The datagram may be a late or repeated one. */
  lemma UpdateIsLearned(cfg: Config, states: seq<System>, steps: seq<Step>, k: nat, i: nat)
    requires Run(cfg, states, steps) && k < |steps| && i < |steps| && steps[k].Broadcast? && steps[i].EdgeRecv?
    requires ValidBase(cfg.base) && Enabled(cfg, states[k], steps[k]) && steps[i].d in Sent(cfg, states[k], steps[k])
    ensures steps[i].d.dst in states[i].edges && steps[i].d.dst in states[i + 1].edges
    ensures steps[k].tid in states[k].node.threads && states[k].node.threads[steps[k].tid].Announcing?
    ensures
      var g, e, e' := states[k].node.threads[steps[k].tid], states[i].edges[steps[i].d.dst].e, states[i + 1].edges[steps[i].d.dst].e;
      && e'.vip == e.vip
      && e'.table == if Key(g.vip) != Key(e.vip) then e.table[Key(g.vip) := g.addr] else e.table
  {
    hide Run, Inv, Enabled, Sent, HandleDatagram, EncodePacket, PeerUpdate, Key;
    StepOfRun(cfg, states, steps, i);
    RunKeepsInv(cfg, states, steps, i);
    RunKeepsInv(cfg, states, steps, k);
    EdgeRecvStep(cfg, states, steps, i);
    BroadcastSends(cfg, Past(states, k), states[k], steps[k].tid, steps[i].d);
    var g := states[k].node.threads[steps[k].tid];
    UpdateMerges(cfg, states[i].edges[steps[i].d.dst].e, g.vip, g.addr);
  }

  lemma BroadcastSends(cfg: Config, past: set<Table>, s: System, tid: nat, d: Datagram)
    requires Inv(cfg, past, s) && Enabled(cfg, s, Broadcast(tid)) && d in Sent(cfg, s, Broadcast(tid))
    ensures tid in s.node.threads && s.node.threads[tid].Announcing?
    ensures
      var g := s.node.threads[tid];
      d.data == EncodePacket(PeerUpdate(g.vip, g.addr)) && |g.vip| == |cfg.base| && ShortAddr(cfg, g.addr)
  {
    hide EncodePacket, PeerUpdate, Leases.Inv, GenuineNet, TruthfulTables;
    assert TruthfulThread(cfg, past, s.edges.Keys, s.node.threads[tid]);
  }

  lemma UpdateMerges(cfg: Config, e: EdgeState, vip: Bytes, addr: Addr)
    requires ValidBase(cfg.base) && |vip| == |cfg.base| && ShortAddr(cfg, addr)
    ensures HandleDatagram(e, EncodePacket(PeerUpdate(vip, addr))) ==
            e.(table := if Key(vip) != Key(e.vip) then e.table[Key(vip) := addr] else e.table)
  {
    hide EncodePacket, DecodePacket, EncodePeers, DecodePeers, Key, Merge, SrcOnWire, DstOnWire;
    var list := [Peer(vip, addr)];
    UpdateSize(cfg, list);
    DecodeEncodeWhole(PeerUpdate(vip, addr));
    assert EncodePeers(list)[..|EncodePeers(list)| % U16] == EncodePeers(list);
    DecodeEncodePeers(list);
    KeyOfWire(vip);
    assert OnWire(list) == [Peer(Wire(vip), addr)];
    MergeOne(e.table, e.vip, Peer(Wire(vip), addr));
  }

  lemma UpdateSize(cfg: Config, list: seq<Peer>)
    requires ValidBase(cfg.base) && |list| == 1 && |list[0].vip| == |cfg.base| && ShortAddr(cfg, list[0].addr)
    ensures |EncodePeers(list)| < U16
  {
    EntriesBound(list, 263);
  }

  lemma MergeOne(table: Table, own: Bytes, p: Peer)
    ensures Merge(table, own, [p]) == if Key(p.vip) != Key(own) then table[Key(p.vip) := p.addr] else table
  {
    assert Merge(table, own, []) == table;
    assert [p][..0] == [];
  }

  /** In every run, an edge's table changes only when it handles a datagram of a broadcast or of a
      heartbeat's answer, or its process ends. */
  lemma TableChangesOnlyBy(cfg: Config, states: seq<System>, steps: seq<Step>, i: nat, a: Addr) returns (k: nat)
    requires Run(cfg, states, steps) && i < |steps| && a in states[i].edges
    requires a !in states[i + 1].edges || states[i + 1].edges[a].e.table != states[i].edges[a].e.table
    ensures steps[i] == StopEdge(a) || (
      && steps[i].EdgeRecv? && steps[i].d.dst == a && k < i && (steps[k].Reply? || steps[k].Broadcast?)
      && ValidBase(cfg.base) && Enabled(cfg, states[k], steps[k]) && steps[i].d in Sent(cfg, states[k], steps[k]))
  {
    hide Run, Inv, Enabled, Apply, Sent, HandleDatagram, DecodePacket;
    StepOfRun(cfg, states, steps, i);
    RunKeepsInv(cfg, states, steps, i);
    k := 0;
    if steps[i] != StopEdge(a) { TableAfterStep(cfg, Past(states, i), states[i], steps[i], a); }
    if steps[i].EdgeRecv? && steps[i].d.dst == a {
      var d := steps[i].d;
      k := Origin(cfg, states, steps, i, d);
      RunKeepsInv(cfg, states, steps, k);
      DecodedKind(cfg, Past(states, k), states[k], steps[k], d);
      NoDatagramPanics(cfg, states, steps, i, d);
      if !steps[k].Reply? && !steps[k].Broadcast? { OtherKindsKeep(states[i].edges[a].e, d.data); }
    }
  }

  lemma TableAfterStep(cfg: Config, past: set<Table>, s: System, step: Step, a: Addr)
    requires Inv(cfg, past, s) && Enabled(cfg, s, step) && a in s.edges && step != StopEdge(a)
    ensures a in Apply(cfg, s, step).edges
    ensures
      var e := Apply(cfg, s, step).edges[a].e;
      if step.EdgeRecv? && step.d.dst == a then step.d in s.net && e == HandleDatagram(s.edges[a].e, step.d.data)
      else e.table == s.edges[a].e.table
  {
    hide Leases.Enabled, Leases.Apply, Leases.Inv, TruthfulNode, TruthfulTables, Genuine;
    hide Sent, DecodePacket, HandleDatagram, Finish, Received, Order;
    if step.FinishEdge? && step.d.dst == a {
      FinishLearnsNothing(cfg, past, s.edges[a], step.d.data);
    }
  }

  lemma OtherKindsKeep(e: EdgeState, data: Bytes)
    requires DecodePacket(data).Ok? && DecodePacket(data).value.kind !in {HEARTBEAT_ACK, PEER_LIST, P2P_CONNECT_ACK}
    ensures HandleDatagram(e, data) == e
  {
    hide DecodePacket;
  }

  // ---- hole punching -----------------------------------------------------

  /** What the supernode would do with a hole-punching request, if anybody sent one: the target is
      asked in the requester's name to answer to the requester's real address, and the requester gets
      the target's real address, but from its own virtual address, which it does not list, so it
      ignores it. */
  lemma ConnectIsRelayed(cfg: Config, s: System, d: Datagram, pkt: Packet, asker: EdgeState)
    returns (toTarget: Datagram, toAsker: Datagram)
    requires ValidBase(cfg.base) && Enabled(cfg, s, RecvConnect(d, pkt))
    requires |pkt.dst| == |pkt.src| && (|pkt.src| == 4 || |pkt.src| == 16) && |d.src| < U16 && |s.node.t.peers[Key(pkt.dst)].addr| < U16
    requires Key(asker.vip) == Key(pkt.src) && Key(asker.vip) !in asker.table
    ensures Sent(cfg, s, RecvConnect(d, pkt)) == {toTarget, toAsker}
    ensures toTarget.dst == s.node.t.peers[Key(pkt.dst)].addr && toAsker.dst == d.src
    ensures
      var got := DecodePacket(toTarget.data);
      got.Ok? && got.value.kind == 6 && Key(got.value.src) == Key(pkt.dst) && got.value.payload == d.src
    ensures
      var got := DecodePacket(toAsker.data);
      && got.Ok? && got.value.kind == 7 && Key(got.value.src) == Key(pkt.src)
      && got.value.payload == s.node.t.peers[Key(pkt.dst)].addr
    ensures HandleDatagram(asker, toAsker.data) == asker
  {
    hide DecodePacket, EncodePacket, Key, SrcOnWire, DstOnWire;
    var addr := s.node.t.peers[Key(pkt.dst)].addr;
    var ack, request := pkt.(kind := P2P_CONNECT_ACK, payload := addr), Packet(P2P_CONNECT, pkt.dst, pkt.src, d.src);
    toTarget, toAsker := Datagram(cfg.superAddr, addr, EncodePacket(request)), Datagram(cfg.superAddr, d.src, EncodePacket(ack));
    DecodeEncodeWhole(ack);
    DecodeEncodeWhole(request);
    assert addr[..|addr| % U16] == addr && d.src[..|d.src| % U16] == d.src;
    SourceKey(ack);
    SourceKey(request);
  }

  // ---- whose the leases are ----------------------------------------------

  /** Up to moment i the edge at this address has asked to register with these texts. */
  ghost predicate Asked(steps: seq<Step>, i: nat, a: Addr, community: Bytes, hostname: Bytes) {
    exists k :: 0 <= k < i && k < |steps| && AsksFor(steps[k], a, community, hostname)
  }

  ghost predicate AsksFor(step: Step, a: Addr, community: Bytes, hostname: Bytes) {
    step.StartEdge? && step.a == a && step.reg.community == community && step.reg.hostname == hostname
  }

  /** A registration in flight and a lease are those of edges of the community that have asked. */
  ghost predicate AllAsked(cfg: Config, steps: seq<Step>, i: nat, node: Leases.Node) {
    && (forall tid | tid in node.threads && node.threads[tid].Leased? ::
          var g := node.threads[tid]; g.reg.community == cfg.community && Asked(steps, i, g.addr, g.reg.community, g.reg.hostname))
    && (forall k | k in node.t.peers ::
          var p := node.t.peers[k]; p.community == cfg.community && Asked(steps, i, p.addr, p.community, p.hostname))
  }

  lemma AskedLater(steps: seq<Step>, i: nat, j: nat, a: Addr, community: Bytes, hostname: Bytes)
    requires Asked(steps, i, a, community, hostname) && i <= j
    ensures Asked(steps, j, a, community, hostname)
  {
    hide AsksFor;
  }

  lemma AllAskedStep(cfg: Config, steps: seq<Step>, i: nat, s: System, step: Step)
    requires ValidBase(cfg.base) && Enabled(cfg, s, step) && AllAsked(cfg, steps, i, s.node)
    requires step.RecvRegister? ==> Asked(steps, i, step.d.src, step.reg.community, step.reg.hostname)
    ensures AllAsked(cfg, steps, i + 1, Apply(cfg, s, step).node)
  {
    hide Asked, Sent, Edges, DecodePacket, DecodeRegistration, EncodeRegistration, FirstFree, Key, Order, Received, Stale;
    var n, n' := s.node, Apply(cfg, s, step).node;
    forall tid | tid in n'.threads && n'.threads[tid].Leased?
      ensures var g := n'.threads[tid]; g.reg.community == cfg.community && Asked(steps, i + 1, g.addr, g.reg.community, g.reg.hostname)
    {
      var g := n'.threads[tid];
      AskedLater(steps, i, i + 1, g.addr, g.reg.community, g.reg.hostname);
    }
    forall k | k in n'.t.peers
      ensures var p := n'.t.peers[k]; p.community == cfg.community && Asked(steps, i + 1, p.addr, p.community, p.hostname)
    {
      var p := n'.t.peers[k];
      AskedLater(steps, i, i + 1, p.addr, p.community, p.hostname);
    }
  }

  /** In every run, every lease is that of an edge at its real address that asked for it with the
      lease's host name and the supernode's own community. */
  lemma {:induction false} LeasesWereAsked(cfg: Config, states: seq<System>, steps: seq<Step>, i: nat)
    requires Run(cfg, states, steps) && i < |states|
    ensures AllAsked(cfg, steps, i, states[i].node)
  {
    hide Enabled, Apply, Asked;
    if i > 0 {
      LeasesWereAsked(cfg, states, steps, i - 1);
      StepOfRun(cfg, states, steps, i - 1);
      if steps[i - 1].RecvRegister? { RequestWasAsked(cfg, states, steps, i - 1); }
      AllAskedStep(cfg, steps, i - 1, states[i - 1], steps[i - 1]);
    }
  }

  lemma RequestWasAsked(cfg: Config, states: seq<System>, steps: seq<Step>, i: nat)
    requires Run(cfg, states, steps) && i < |steps| && steps[i].RecvRegister?
    ensures Asked(steps, i, steps[i].d.src, steps[i].reg.community, steps[i].reg.hostname)
  {
    hide Run, Inv, Enabled, Sent, DecodePacket, DecodeRegistration, EncodeRegistration;
    StepOfRun(cfg, states, steps, i);
    var d := steps[i].d;
    RegisterReceived(cfg, states[i], steps[i]);
    var k := Origin(cfg, states, steps, i, d);
    RunKeepsInv(cfg, states, steps, k);
    DecodedKind(cfg, Past(states, k), states[k], steps[k], d);
    assert steps[k].StartEdge?;
    StartSends(cfg, states[k], steps[k], d);
    assert AsksFor(steps[k], d.src, steps[i].reg.community, steps[i].reg.hostname);
  }

  lemma RegisterReceived(cfg: Config, s: System, step: Step)
    requires ValidBase(cfg.base) && Enabled(cfg, s, step) && step.RecvRegister?
    ensures step.d in s.net && DecodePacket(step.d.data) == Ok(step.pkt) && step.pkt.kind == REGISTER
    ensures DecodeRegistration(step.pkt.payload) == Value(step.reg)
  {
    hide DecodePacket, DecodeRegistration;
  }

  lemma StartSends(cfg: Config, s: System, step: Step, d: Datagram)
    requires ValidBase(cfg.base) && Enabled(cfg, s, step) && step.StartEdge? && d in Sent(cfg, s, step)
    ensures d.src == step.a && DecodePacket(d.data).Ok?
    ensures DecodeRegistration(DecodePacket(d.data).value.payload) == Value(step.reg)
  {
    hide EncodePacket, DecodePacket, EncodeRegistration, DecodeRegistration, SrcOnWire, DstOnWire;
    var payload := EncodeRegistration(step.reg);
    DecodeEncodeWhole(Packet(REGISTER, [], [], payload));
    assert payload[..|payload| % U16] == payload;
    DecodeEncodeRegistration(step.reg);
  }

  // ---- an edge's own address ---------------------------------------------

  /** What register reads out of an ack of the supernode. */
  lemma AckGivesVip(cfg: Config, vip: Bytes, list: seq<Peer>, t: Table)
    requires ValidBase(cfg.base) && Lists(cfg, list, t) && |vip| == |cfg.base|
    ensures var got := DecodePacket(EncodePacket(RegisterAck(vip, list)));
      got.Ok? && got.value.kind == REGISTER_ACK && ReadAck(got.value.payload) == Value(Ack(vip, []))
  {
    hide Lists, EncodePacket, DecodePacket, EncodePeers, ReadAck;
    ListsFit(cfg, list, t);
    ListsSize(cfg, list, t);
    DecodeEncodeWhole(RegisterAck(vip, list));
    AckFits(vip, list);
    AckTeachesNothing(vip, list);
  }

  lemma AckFits(vip: Bytes, list: seq<Peer>)
    requires |vip| <= 16 && |EncodePeers(list)| <= 65417
    ensures var payload := RegisterAckPayload(vip, list); |payload| < U16 && payload[..|payload| % U16] == payload
  {
    hide EncodePeers;
  }

  /** An ack in the network names an address under which the supernode had its receiver. */
  lemma AckWasEntered(cfg: Config, states: seq<System>, steps: seq<Step>, i: nat, d: Datagram) returns (j: nat)
    requires Run(cfg, states, steps) && i < |states| && d in states[i].net
    requires DecodePacket(d.data).Ok? && DecodePacket(d.data).value.kind == REGISTER_ACK
    ensures j <= i && ReadAck(DecodePacket(d.data).value.payload).Value?
    ensures var vip := ReadAck(DecodePacket(d.data).value.payload).value.vip;
      |vip| == |cfg.base| && ValidBase(cfg.base)
      && Key(vip) in states[j].node.t.peers && states[j].node.t.peers[Key(vip)].addr == d.dst
  {
    hide Run, DecodePacket, EncodePacket, ReadAck, RegisterAck, Lists, Key, Directory;
    hide Leases.Inv, TruthfulNode, TruthfulTables, GenuineNet, Received, Leases.Enabled, Order;
    var k := Origin(cfg, states, steps, i, d);
    StepOfRun(cfg, states, steps, k);
    RunKeepsInv(cfg, states, steps, k);
    RunKeepsInv(cfg, states, steps, k + 1);
    DecodedKind(cfg, Past(states, k), states[k], steps[k], d);
    assert steps[k].Insert?;
    InsertSends(cfg, Past(states, k), states[k], steps[k].tid, steps[k].order, d);
    j := k + 1;
  }

  lemma StepOfRun(cfg: Config, states: seq<System>, steps: seq<Step>, k: nat)
    requires Run(cfg, states, steps) && k < |steps|
    ensures |states| == |steps| + 1 && ValidBase(cfg.base) && Enabled(cfg, states[k], steps[k])
    ensures states[k + 1] == Apply(cfg, states[k], steps[k])
  {
  }

  lemma InsertSends(cfg: Config, past: set<Table>, s: System, tid: nat, order: seq<Bytes>, d: Datagram)
    requires Inv(cfg, past, s) && Enabled(cfg, s, Insert(tid, order)) && d in Sent(cfg, s, Insert(tid, order))
    ensures var got, peers := DecodePacket(d.data), Apply(cfg, s, Insert(tid, order)).node.t.peers;
      got.Ok? && ReadAck(got.value.payload).Value?
      && var vip := ReadAck(got.value.payload).value.vip;
         |vip| == |cfg.base| && Key(vip) in peers && peers[Key(vip)].addr == d.dst
  {
    hide DecodePacket, EncodePacket, ReadAck, RegisterAck, Lists, Key, Directory, TruthfulTables, GenuineNet, Listing;
    hide Leases.Accounted, Leases.Indexed, Leases.Sectioned, PoolKeys;
    var step := Insert(tid, order);
    var g, n' := s.node.threads[tid], Apply(cfg, s, step).node;
    Leases.StepKeepsInv(cfg.base, s.node, Leases.Insert(tid));
    NodeStaysTruthful(cfg, past, s, step);
    ListingLists(cfg, n', s.edges.Keys, order);
    AckGivesVip(cfg, g.vip, Listing(n'.t.peers, order), Directory(n'.t.peers));
  }

  /** The supernode had virtual address vip at real address a at some moment up to i. */
  ghost predicate Leased(cfg: Config, states: seq<System>, i: nat, vip: Bytes, a: Addr) {
    |vip| == |cfg.base| && exists j :: 0 <= j <= i && j < |states| && Key(vip) in states[j].node.t.peers
                                       && states[j].node.t.peers[Key(vip)].addr == a
  }

  lemma LeasedLater(cfg: Config, states: seq<System>, i: nat, k: nat, vip: Bytes, a: Addr)
    requires Leased(cfg, states, i, vip, a) && i <= k
    ensures Leased(cfg, states, k, vip, a)
  {
    hide Key;
  }

  /** In every run, the virtual address of a running edge is one the supernode has leased to it. */
  lemma {:induction false} RunningEdgeIsLeased(cfg: Config, states: seq<System>, steps: seq<Step>, i: nat, a: Addr)
    requires Run(cfg, states, steps) && i < |states| && IsRunning(states[i], a)
    ensures Leased(cfg, states, i, states[i].edges[a].e.vip, a)
  {
    hide Run, Leased, Leases.Enabled, Leases.Apply, HandleDatagram, Finish, Sent, NodeStep;
    RunStarts(cfg, states, steps);
    if i > 0 {
      var s, step := states[i - 1], steps[i - 1];
      StepOfRun(cfg, states, steps, i - 1);
      if step.FinishEdge? && step.d.dst == a {
        FinishedIsLeased(cfg, states, steps, i - 1);
      } else {
        VipAfterStep(cfg, s, step, a);
        RunningEdgeIsLeased(cfg, states, steps, i - 1, a);
        LeasedLater(cfg, states, i - 1, i, s.edges[a].e.vip, a);
      }
    }
  }

  lemma RunStarts(cfg: Config, states: seq<System>, steps: seq<Step>)
    requires Run(cfg, states, steps)
    ensures |states| == |steps| + 1 && forall a | a in states[0].edges :: states[0].edges[a].phase.Idle?
  {
  }

  lemma VipAfterStep(cfg: Config, s: System, step: Step, a: Addr)
    requires ValidBase(cfg.base) && Enabled(cfg, s, step) && IsRunning(Apply(cfg, s, step), a)
    requires !(step.FinishEdge? && step.d.dst == a)
    ensures IsRunning(s, a) && Apply(cfg, s, step).edges[a].e.vip == s.edges[a].e.vip
  {
    hide Leases.Enabled, Leases.Apply, Sent, DecodePacket, Merge, DecodePeers, Finish, Received, Order;
  }

  lemma FinishedIsLeased(cfg: Config, states: seq<System>, steps: seq<Step>, i: nat)
    requires Run(cfg, states, steps) && i < |steps| && steps[i].FinishEdge? && IsRunning(states[i + 1], steps[i].d.dst)
    ensures Leased(cfg, states, i + 1, states[i + 1].edges[steps[i].d.dst].e.vip, steps[i].d.dst)
  {
    hide Leases.Enabled, Leases.Apply, Sent, DecodePacket, ReadAck, Key, MergeAll, NodeStep;
    var d := steps[i].d;
    assert Enabled(cfg, states[i], steps[i]) && states[i + 1] == Apply(cfg, states[i], steps[i]);
    assert DecodePacket(d.data).Ok? && DecodePacket(d.data).value.kind == REGISTER_ACK;
    var j := AckWasEntered(cfg, states, steps, i, d);
    assert 0 <= j <= i + 1;
  }

  // ---- payloads ----------------------------------------------------------

  lemma SourceKey(pkt: Packet)
    requires |pkt.src| == 4 || |pkt.src| == 16
    ensures Key(SrcOnWire(pkt)) == Key(pkt.src)
  {
    KeyOfWire(pkt.src);
  }

  /** In every run, whatever onData is given was passed to SendTo by an edge, cut to its
      length modulo 65536. It was sent to this edge directly, because the supernode had had this
      edge at the destination address; and its source is an address the supernode had leased to
      the sender. */
  lemma DeliveredWasSent(cfg: Config, states: seq<System>, steps: seq<Step>, i: nat, pkt: Packet) returns (k: nat, j: nat)
    requires Run(cfg, states, steps) && i < |steps| && steps[i].EdgeRecv? && Delivered(steps[i].d.data) == Some(pkt)
    ensures k < i && steps[k].EdgeSend? && j <= k
    ensures
      var EdgeSend(a, to, dst, payload) := steps[k];
      && to == steps[i].d.dst && to != cfg.superAddr && pkt.payload == payload[..|payload| % U16]
      && Key(dst) in states[j].node.t.peers && states[j].node.t.peers[Key(dst)].addr == to
      && exists vip :: Key(vip) == Key(pkt.src) && Leased(cfg, states, k, vip, a)
  {
    hide Run, Leased, DecodePacket, EncodePacket, Key, Sent, Apply, Inv, Enabled;
    var d := steps[i].d;
    RunStarts(cfg, states, steps);
    ReceiverIsAnEdge(cfg, states, steps, i);
    k := Origin(cfg, states, steps, i, d);
    RunKeepsInv(cfg, states, steps, k);
    DecodedKind(cfg, Past(states, k), states[k], steps[k], d);
    assert steps[k].EdgeSend?;
    SendDetails(cfg, states[k], steps[k], d);
    var EdgeSend(a, to, dst, payload) := steps[k];
    var sent := Packet(DATA, states[k].edges[a].e.vip, dst, payload);
    DecodeEncodeWhole(sent);
    RunningEdgeIsLeased(cfg, states, steps, k, a);
    LeasedShape(cfg, states, steps, k, sent.src, a);
    SourceKey(sent);
    TablesWereRegistered(cfg, states, steps, k, a, Key(dst));
    j :| 0 <= j <= k && Key(dst) in states[j].node.t.peers && states[j].node.t.peers[Key(dst)].addr == states[k].edges[a].e.table[Key(dst)];
  }

  lemma ReceiverIsAnEdge(cfg: Config, states: seq<System>, steps: seq<Step>, i: nat)
    requires Run(cfg, states, steps) && i < |steps| && steps[i].EdgeRecv?
    ensures steps[i].d in states[i].net && steps[i].d.dst != cfg.superAddr
  {
    hide Leases.Enabled, Leases.Apply, Leases.Inv, TruthfulNode, TruthfulTables, GenuineNet, Past;
    RunKeepsInv(cfg, states, steps, i);
    assert Enabled(cfg, states[i], steps[i]);
  }

  lemma SendDetails(cfg: Config, s: System, step: Step, d: Datagram)
    requires ValidBase(cfg.base) && Enabled(cfg, s, step) && step.EdgeSend? && d in Sent(cfg, s, step) && d.dst != cfg.superAddr
    ensures IsRunning(s, step.a) && d.dst == step.to && Key(step.dst) in s.edges[step.a].e.table
            && s.edges[step.a].e.table[Key(step.dst)] == step.to
    ensures d.data == EncodePacket(Packet(DATA, s.edges[step.a].e.vip, step.dst, step.payload))
  {
  }

  lemma LeasedShape(cfg: Config, states: seq<System>, steps: seq<Step>, i: nat, vip: Bytes, a: Addr)
    requires Run(cfg, states, steps) && Leased(cfg, states, i, vip, a)
    ensures |vip| == 4 || |vip| == 16
  {
    hide Key;
  }

  /** The datagram a step takes out of the network, if it takes one. */
  function Taken(step: Step): Option<Datagram> {
    match step
    case RecvRegister(d, _, _, _) => Some(d)
    case RecvHeartbeat(d, _, _) => Some(d)
    case RecvBye(d, _) => Some(d)
    case RecvConnect(d, _) => Some(d)
    case FinishEdge(d) => Some(d)
    case EdgeRecv(d) => Some(d)
    case EdgeConnect(d, _, _) => Some(d)
    case _ => None
  }

  /** SendTo falls back on the supernode when it knows no address, but the supernode has no case
      for data: in no run does any step take a datagram that such a SendTo sent, so its payload
      is delivered to nobody. */
  lemma FallbackIsLost(cfg: Config, states: seq<System>, steps: seq<Step>, k: nat, i: nat)
    requires Run(cfg, states, steps) && k < |steps| && steps[k].EdgeSend? && steps[k].to == cfg.superAddr
    requires i < |steps|
    ensures ValidBase(cfg.base) && Enabled(cfg, states[k], steps[k])
    ensures forall d | d in Sent(cfg, states[k], steps[k]) :: Taken(steps[i]) != Some(d)
  {
    hide Sent, Apply, DecodePacket, Taken;
    StepOfRun(cfg, states, steps, k);
    RunKeepsInv(cfg, states, steps, k);
    forall d | d in Sent(cfg, states[k], steps[k]) ensures Taken(steps[i]) != Some(d) {
      DecodedKind(cfg, Past(states, k), states[k], steps[k], d);
      FallbackGoesThere(cfg, states[k], steps[k], d);
      if Taken(steps[i]) == Some(d) { NobodyTakesData(cfg, states, steps, i, d); }
    }
  }

  lemma FallbackGoesThere(cfg: Config, s: System, step: Step, d: Datagram)
    requires ValidBase(cfg.base) && Enabled(cfg, s, step) && step.EdgeSend? && d in Sent(cfg, s, step)
    ensures d.dst == step.to
  {
  }

  lemma NobodyTakesData(cfg: Config, states: seq<System>, steps: seq<Step>, i: nat, d: Datagram)
    requires Run(cfg, states, steps) && i < |steps| && Taken(steps[i]) == Some(d) && Delivered(d.data).Some?
    ensures d.dst != cfg.superAddr
  {
    hide Leases.Enabled, Leases.Apply, Leases.Inv, TruthfulNode, TruthfulTables, GenuineNet, Past, DecodePacket, DecodeRegistration;
    RunKeepsInv(cfg, states, steps, i);
    assert Enabled(cfg, states[i], steps[i]);
  }

  // ---- an edge that sends to itself --------------------------------------

  /** A running edge does not list its own virtual address, and one that is not running lists
      nothing. */
  ghost predicate ListsOthers(p: Proc) {
    if p.phase.Running? then Key(p.e.vip) !in p.e.table else p.e.table == map[]
  }

  lemma HandleListsOthers(e: EdgeState, data: Bytes)
    requires Key(e.vip) !in e.table
    ensures HandleDatagram(e, data).vip == e.vip && Key(e.vip) !in HandleDatagram(e, data).table
  {
    hide DecodePacket, DecodePeers, Merge, Key;
    match DecodePacket(data)
    case Err =>
    case Ok(pkt) =>
      match DecodePeers(pkt.payload)
      case Err =>
      case Ok(list) => MergeElsewhere(e.table, e.vip, list, Key(e.vip));
  }

  lemma StepListsOthers(cfg: Config, past: set<Table>, s: System, step: Step, a: Addr)
    requires Inv(cfg, past, s) && Enabled(cfg, s, step) && a in s.edges && ListsOthers(s.edges[a])
    ensures a in Apply(cfg, s, step).edges && ListsOthers(Apply(cfg, s, step).edges[a])
  {
    hide Leases.Enabled, Leases.Apply, Leases.Inv, TruthfulNode, TruthfulTables, Genuine;
    hide Sent, DecodePacket, HandleDatagram, Finish, Key, Received, Order;
    if step.EdgeRecv? && step.d.dst == a {
      HandleListsOthers(s.edges[a].e, step.d.data);
    } else if step.FinishEdge? && step.d.dst == a {
      FinishLearnsNothing(cfg, past, s.edges[a], step.d.data);
    }
  }

  /** In every run, no running edge lists its own virtual address. */
  lemma {:induction false} EdgeListsOthers(cfg: Config, states: seq<System>, steps: seq<Step>, i: nat, a: Addr)
    requires Run(cfg, states, steps) && i < |states| && a in states[0].edges
    ensures a in states[i].edges && ListsOthers(states[i].edges[a])
  {
    hide Run, Inv, Enabled, Apply, ListsOthers;
    RunStarts(cfg, states, steps);
    if i == 0 {
      StartsEmpty(cfg, states, steps, a);
    } else {
      EdgeListsOthers(cfg, states, steps, i - 1, a);
      StepOfRun(cfg, states, steps, i - 1);
      RunKeepsInv(cfg, states, steps, i - 1);
      StepListsOthers(cfg, Past(states, i - 1), states[i - 1], steps[i - 1], a);
    }
  }

  /** So what an edge sends directly never goes to the virtual address it goes by. It can still
      reach the edge itself, under a lease left over from before it last registered. */
  lemma DirectSendIsToAnother(cfg: Config, states: seq<System>, steps: seq<Step>, k: nat)
    requires Run(cfg, states, steps) && k < |steps| && steps[k].EdgeSend? && steps[k].to != cfg.superAddr
    ensures steps[k].a in states[k].edges && Key(steps[k].dst) != Key(states[k].edges[steps[k].a].e.vip)
  {
    hide Run, Leases.Enabled, Leases.Apply, Sent, Key;
    StepOfRun(cfg, states, steps, k);
    EdgesStay(cfg, states, steps, k);
    EdgeListsOthers(cfg, states, steps, k, steps[k].a);
  }

  lemma {:induction false} EdgesStay(cfg: Config, states: seq<System>, steps: seq<Step>, i: nat)
    requires Run(cfg, states, steps) && i < |states|
    ensures |states| > 0 && states[i].edges.Keys == states[0].edges.Keys
  {
    hide Leases.Enabled, Leases.Apply, Sent, HandleDatagram, Finish;
    if i > 0 {
      EdgesStay(cfg, states, steps, i - 1);
      assert states[i] == Apply(cfg, states[i - 1], steps[i - 1]);
    }
  }

  lemma StartsEmpty(cfg: Config, states: seq<System>, steps: seq<Step>, a: Addr)
    requires Run(cfg, states, steps) && a in states[0].edges
    ensures ListsOthers(states[0].edges[a])
  {
  }
}
