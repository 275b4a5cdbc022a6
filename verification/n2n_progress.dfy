/** What the overlay can always still do: from any state the invariant allows, continuations that
    register an edge, refresh it, announce it, carry its data and take it out again. */
module N2nProgress {
  import opened Bytes
  import opened IP
  import opened N2nProtocol
  import opened N2nSupernode
  import Leases = N2nLease
  import opened N2nEdge
  import opened N2nNetwork
  import opened N2nData
  import opened Options

  /** The steps can be taken one after the other from s, and lead to s'. */
  ghost predicate Goes(cfg: Config, s: System, steps: seq<Step>, s': System)
    requires ValidBase(cfg.base)
    decreases |steps|
  {
    if steps == [] then s' == s
    else Enabled(cfg, s, steps[0]) && Goes(cfg, Apply(cfg, s, steps[0]), steps[1..], s')
  }

  lemma GoesByStep(cfg: Config, s: System, step: Step, steps: seq<Step>, s': System)
    requires ValidBase(cfg.base) && Enabled(cfg, s, step) && Goes(cfg, Apply(cfg, s, step), steps, s')
    ensures Goes(cfg, s, [step] + steps, s')
  {
    hide Enabled, Apply;
    assert ([step] + steps)[1..] == steps;
  }

  lemma GoesOne(cfg: Config, s: System, step: Step)
    requires ValidBase(cfg.base) && Enabled(cfg, s, step)
    ensures Goes(cfg, s, [step], Apply(cfg, s, step))
  {
    hide Enabled, Apply;
    GoesByStep(cfg, s, step, [], Apply(cfg, s, step));
    assert [step] + [] == [step];
  }

  lemma {:induction false} GoesFurther(cfg: Config, s: System, steps: seq<Step>, mid: System, more: seq<Step>, s': System)
    requires ValidBase(cfg.base) && Goes(cfg, s, steps, mid) && Goes(cfg, mid, more, s')
    ensures Goes(cfg, s, steps + more, s')
    decreases |steps|
  {
    hide Enabled, Apply;
    if steps == [] {
      assert steps + more == more;
    } else {
      GoesFurther(cfg, Apply(cfg, s, steps[0]), steps[1..], mid, more, s');
      assert (steps + more)[1..] == steps[1..] + more;
    }
  }

  lemma {:induction false} GoesKeepsInv(cfg: Config, past: set<Table>, s: System, steps: seq<Step>, s': System) returns (more: set<Table>)
    requires ValidBase(cfg.base) && Inv(cfg, past, s) && Goes(cfg, s, steps, s')
    ensures past <= more && Inv(cfg, more, s')
    decreases |steps|
  {
    hide Inv, Enabled, Apply;
    if steps == [] {
      more := past;
    } else {
      StepKeepsInv(cfg, past, s, steps[0]);
      more := GoesKeepsInv(cfg, Extended(cfg, past, s, steps[0]), Apply(cfg, s, steps[0]), steps[1..], s');
    }
  }

  lemma {:induction false} FreshThread(tids: set<nat>) returns (tid: nat)
    ensures tid !in tids && forall i | i in tids :: i < tid
    decreases |tids|
  {
    if tids == {} {
      tid := 0;
    } else {
      var i :| i in tids;
      var above := FreshThread(tids - {i});
      tid := if above > i then above else i + 1;
      forall j | j in tids ensures j < tid {
        if j != i { assert j in tids - {i}; }
      }
    }
  }

  lemma {:induction false} SomeOrder(keys: set<Bytes>) returns (order: seq<Bytes>)
    ensures Order(order, keys)
    decreases |keys|
  {
    if keys == {} {
      order := [];
    } else {
      var k :| k in keys;
      var rest := SomeOrder(keys - {k});
      order := rest + [k];
      forall j ensures j in order <==> j in keys {
        assert j in order <==> j in rest || j == k;
      }
    }
  }

  // ---- registration ------------------------------------------------------

  ghost predicate FitRegistration(cfg: Config, reg: Registration) {
    && |reg.community| < U16 && |reg.hostname| < U16 && reg.port == 0 && |EncodeRegistration(reg)| < U16
    && reg.community == cfg.community
  }

  function Request(cfg: Config, a: Addr, reg: Registration): Datagram {
    Datagram(a, cfg.superAddr, EncodePacket(Packet(REGISTER, [], [], EncodeRegistration(reg))))
  }

  lemma Asks(cfg: Config, s: System, a: Addr, reg: Registration)
    requires ValidBase(cfg.base) && a in s.edges && s.edges[a].phase.Idle? && FitRegistration(cfg, reg)
    ensures Enabled(cfg, s, StartEdge(a, reg))
    ensures Apply(cfg, s, StartEdge(a, reg))
         == System(s.node, s.edges[a := s.edges[a].(phase := Waiting)], s.net + {Request(cfg, a, reg)})
  {
    hide EncodePacket, EncodeRegistration;
  }

  lemma RequestArrives(cfg: Config, s: System, a: Addr, reg: Registration, tid: nat) returns (step: Step)
    requires ValidBase(cfg.base) && FitRegistration(cfg, reg) && Request(cfg, a, reg) in s.net
    requires tid !in s.node.threads && !(PoolKeys(cfg.base) <= s.node.t.used)
    ensures step.RecvRegister? && Enabled(cfg, s, step) && FirstFree(cfg.base, s.node.t.used).Some?
    ensures
      var vip := FirstFree(cfg.base, s.node.t.used).value;
      Apply(cfg, s, step) == s.(node := s.node.(
        t := s.node.t.(used := s.node.t.used + {Key(vip)}), threads := s.node.threads[tid := Leases.Leased(vip, a, reg)]))
  {
    hide EncodePacket, DecodePacket, EncodeRegistration, DecodeRegistration, FirstFree, PoolKeys, Key;
    var payload := EncodeRegistration(reg);
    DecodeEncodeWhole(Packet(REGISTER, [], [], payload));
    assert payload[..|payload| % U16] == payload;
    DecodeEncodeRegistration(reg);
    FirstFreeSpec(cfg.base, s.node.t.used);
    step := RecvRegister(Request(cfg, a, reg), tid, DecodePacket(Request(cfg, a, reg).data).value, reg);
    assert s.net + {} == s.net;
  }

  function AckTo(cfg: Config, g: Leases.Thread, peers: map<Bytes, Lease>, order: seq<Bytes>): Datagram
    requires g.Leased? && forall k <- order :: k in peers
  {
    Datagram(cfg.superAddr, g.addr, EncodePacket(RegisterAck(g.vip, Listing(peers, order))))
  }

  lemma Enters(cfg: Config, s: System, tid: nat, order: seq<Bytes>)
    requires ValidBase(cfg.base) && s.node.section.Free? && tid in s.node.threads && s.node.threads[tid].Leased?
    requires Order(order, s.node.t.peers.Keys + {Key(s.node.threads[tid].vip)})
    ensures Enabled(cfg, s, Insert(tid, order))
    ensures
      var g := s.node.threads[tid];
      var lease := Lease(g.vip, g.addr, s.node.now, g.reg.community, g.reg.hostname);
      var t' := Tables(s.node.t.used, s.node.t.peers[Key(g.vip) := lease], s.node.t.index[g.addr := Key(g.vip)]);
      (forall k <- order :: k in t'.peers) &&
      Apply(cfg, s, Insert(tid, order)) == System(
        s.node.(t := t', threads := s.node.threads[tid := Leases.Announcing(g.vip, g.addr)]), s.edges,
        s.net + {AckTo(cfg, g, t'.peers, order)})
  {
    hide EncodePacket, Key, RegisterAck, Listing;
    var g, peers := s.node.threads[tid], Leases.Apply(cfg.base, s.node, Leases.Insert(tid)).t.peers;
    assert peers.Keys == s.node.t.peers.Keys + {Key(g.vip)};
  }

  lemma Finishes(cfg: Config, s: System, g: Leases.Thread, peers: map<Bytes, Lease>, order: seq<Bytes>, t: Table)
    requires ValidBase(cfg.base) && g.Leased? && |g.vip| == |cfg.base| && (forall k <- order :: k in peers)
    requires Lists(cfg, Listing(peers, order), t)
    requires AckTo(cfg, g, peers, order) in s.net && g.addr in s.edges && s.edges[g.addr].phase.Waiting?
    ensures Enabled(cfg, s, FinishEdge(AckTo(cfg, g, peers, order)))
    ensures Apply(cfg, s, FinishEdge(AckTo(cfg, g, peers, order)))
         == s.(edges := s.edges[g.addr := Proc(Running, EdgeState(g.vip, s.edges[g.addr].e.table))])
  {
    hide EncodePacket, DecodePacket, Lists, Listing, RegisterAck, ReadAck, Order;
    var list := Listing(peers, order);
    AckGivesVip(cfg, g.vip, list, t);
    assert MergeAll(s.edges[g.addr].e.table, []) == s.edges[g.addr].e.table;
    assert s.net + {} == s.net;
  }

  /** The edge asks, and a goroutine of the supernode allocates for it. */
  lemma RequestIsServed(cfg: Config, past: set<Table>, s: System, a: Addr, reg: Registration)
    returns (vip: Bytes, tid: nat, steps: seq<Step>, s': System, more: set<Table>)
    requires Inv(cfg, past, s) && !(PoolKeys(cfg.base) <= s.node.t.used)
    requires a in s.edges && s.edges[a].phase.Idle? && FitRegistration(cfg, reg)
    ensures ValidBase(cfg.base) && Goes(cfg, s, steps, s') && Inv(cfg, more, s') && tid !in s.node.threads
    ensures Key(vip) in PoolKeys(cfg.base) && Key(vip) !in s.node.t.used && |vip| == |cfg.base|
    ensures s'.edges == s.edges[a := s.edges[a].(phase := Waiting)] && s.net <= s'.net
    ensures s'.node == s.node.(t := s.node.t.(used := s.node.t.used + {Key(vip)}),
                               threads := s.node.threads[tid := Leases.Leased(vip, a, reg)])
  {
    hide Inv, Enabled, Apply, Key, FirstFree, PoolKeys, Goes, FitRegistration, Request;
    ValidBaseOf(cfg, past, s);
    tid := FreshThread(s.node.threads.Keys);
    FirstFreeSpec(cfg.base, s.node.t.used);
    vip := FirstFree(cfg.base, s.node.t.used).value;
    Asks(cfg, s, a, reg);
    var asked := Apply(cfg, s, StartEdge(a, reg));
    var recv := RequestArrives(cfg, asked, a, reg, tid);
    s' := Apply(cfg, asked, recv);
    GoesOne(cfg, asked, recv);
    GoesByStep(cfg, s, StartEdge(a, reg), [recv], s');
    steps := [StartEdge(a, reg)] + [recv];
    more := GoesKeepsInv(cfg, past, s, steps, s');
  }

  /** The goroutine enters the lease, and the edge reads its ack. */
  lemma AckIsRead(cfg: Config, past: set<Table>, s: System, tid: nat) returns (steps: seq<Step>, s': System)
    requires Inv(cfg, past, s) && s.node.section.Free? && tid in s.node.threads && s.node.threads[tid].Leased?
    requires s.node.threads[tid].addr in s.edges && s.edges[s.node.threads[tid].addr].phase.Waiting?
    ensures ValidBase(cfg.base) && Goes(cfg, s, steps, s') && s.net <= s'.net
    ensures
      var g := s.node.threads[tid];
      var lease := Lease(g.vip, g.addr, s.node.now, g.reg.community, g.reg.hostname);
      && s'.edges == s.edges[g.addr := Proc(Running, EdgeState(g.vip, s.edges[g.addr].e.table))]
      && s'.node == s.node.(
           t := Tables(s.node.t.used, s.node.t.peers[Key(g.vip) := lease], s.node.t.index[g.addr := Key(g.vip)]),
           threads := s.node.threads[tid := Leases.Announcing(g.vip, g.addr)])
  {
    hide Inv, Enabled, Apply, Key, Lists, Listing, Goes, AckTo, Order;
    LeasedVip(cfg, past, s, tid);
    var g := s.node.threads[tid];
    var order := SomeOrder(s.node.t.peers.Keys + {Key(g.vip)});
    Enters(cfg, s, tid, order);
    var entered := Apply(cfg, s, Insert(tid, order));
    StepKeepsInv(cfg, past, s, Insert(tid, order));
    assert entered.node.t.peers.Keys == s.node.t.peers.Keys + {Key(g.vip)};
    ListsNow(cfg, Extended(cfg, past, s, Insert(tid, order)), entered, order);
    Finishes(cfg, entered, g, entered.node.t.peers, order, Directory(entered.node.t.peers));
    var finish := FinishEdge(AckTo(cfg, g, entered.node.t.peers, order));
    s' := Apply(cfg, entered, finish);
    GoesOne(cfg, entered, finish);
    GoesByStep(cfg, s, Insert(tid, order), [finish], s');
    steps := [Insert(tid, order)] + [finish];
  }

  lemma LeasedVip(cfg: Config, past: set<Table>, s: System, tid: nat)
    requires Inv(cfg, past, s) && tid in s.node.threads && s.node.threads[tid].Leased?
    ensures ValidBase(cfg.base) && |s.node.threads[tid].vip| == |cfg.base|
  {
    hide TruthfulNode, GenuineNet, TruthfulTables;
  }

  /** While s.mu is free and the pool has an address, an idle edge can register: it comes to run
      under an unused pool address, with the table it had, and the supernode has its lease, seen
      now, with what the edge said of itself. Nothing else changes. */
  lemma RegistrationSucceeds(cfg: Config, past: set<Table>, s: System, a: Addr, reg: Registration)
    returns (vip: Bytes, tid: nat, steps: seq<Step>, s': System)
    requires Inv(cfg, past, s) && s.node.section.Free? && !(PoolKeys(cfg.base) <= s.node.t.used)
    requires a in s.edges && s.edges[a].phase.Idle? && FitRegistration(cfg, reg)
    ensures ValidBase(cfg.base) && Goes(cfg, s, steps, s') && tid !in s.node.threads && s.net <= s'.net
    ensures Key(vip) in PoolKeys(cfg.base) && Key(vip) !in s.node.t.used && |vip| == |cfg.base|
    ensures s'.edges == s.edges[a := Proc(Running, EdgeState(vip, s.edges[a].e.table))]
    ensures s'.node == s.node.(
              t := Tables(s.node.t.used + {Key(vip)},
                          s.node.t.peers[Key(vip) := Lease(vip, a, s.node.now, reg.community, reg.hostname)],
                          s.node.t.index[a := Key(vip)]),
              threads := s.node.threads[tid := Leases.Announcing(vip, a)])
  {
    hide Inv, Enabled, Apply, Key, PoolKeys, Goes, FitRegistration;
    var steps0, served, past0;
    vip, tid, steps0, served, past0 := RequestIsServed(cfg, past, s, a, reg);
    var steps1;
    steps1, s' := AckIsRead(cfg, past0, served, tid);
    steps := steps0 + steps1;
    GoesFurther(cfg, s, steps0, served, steps1, s');
  }

  lemma ValidBaseOf(cfg: Config, past: set<Table>, s: System)
    requires Inv(cfg, past, s)
    ensures ValidBase(cfg.base)
  {
  }

  lemma ListsNow(cfg: Config, past: set<Table>, s: System, order: seq<Bytes>)
    requires Inv(cfg, past, s) && Order(order, s.node.t.peers.Keys)
    ensures forall k <- order :: k in s.node.t.peers
    ensures Lists(cfg, Listing(s.node.t.peers, order), Directory(s.node.t.peers))
  {
    hide Leases.Inv, GenuineNet, TruthfulTables, Lists, Listing, Directory;
    ListingLists(cfg, s.node, s.edges.Keys, order);
  }

  // ---- heartbeats --------------------------------------------------------

  function Beat(cfg: Config, a: Addr, vip: Bytes): Datagram {
    Datagram(a, cfg.superAddr, EncodePacket(Packet(HEARTBEAT, vip, [], [])))
  }

  lemma Beats(cfg: Config, s: System, a: Addr)
    requires ValidBase(cfg.base) && IsRunning(s, a)
    ensures Enabled(cfg, s, EdgeHeartbeat(a))
    ensures Apply(cfg, s, EdgeHeartbeat(a)) == s.(net := s.net + {Beat(cfg, a, s.edges[a].e.vip)})
  {
    hide EncodePacket;
  }

  lemma BeatArrives(cfg: Config, s: System, a: Addr, vip: Bytes, tid: nat) returns (step: Step)
    requires ValidBase(cfg.base) && |vip| == |cfg.base| && Beat(cfg, a, vip) in s.net
    requires s.node.section.Free? && tid !in s.node.threads
    ensures step.RecvHeartbeat? && Enabled(cfg, s, step)
    ensures Apply(cfg, s, step) == s.(node := s.node.(
              t := s.node.t.(peers := if Key(vip) in s.node.t.peers then
                                        s.node.t.peers[Key(vip) := s.node.t.peers[Key(vip)].(lastSeen := s.node.now)]
                                      else s.node.t.peers),
              threads := s.node.threads[tid := Leases.Refreshed(step.pkt, a)]))
  {
    hide EncodePacket, DecodePacket, Key, SrcOnWire, DstOnWire;
    DecodeEncodeWhole(Packet(HEARTBEAT, vip, [], []));
    SourceKey(Packet(HEARTBEAT, vip, [], []));
    step := RecvHeartbeat(Beat(cfg, a, vip), tid, DecodePacket(Beat(cfg, a, vip).data).value);
    assert s.net + {} == s.net;
  }

  function AnswerTo(cfg: Config, g: Leases.Thread, peers: map<Bytes, Lease>, order: seq<Bytes>): Datagram
    requires g.Refreshed? && forall k <- order :: k in peers
  {
    Datagram(cfg.superAddr, g.addr, EncodePacket(HeartbeatAck(g.request, Listing(peers, order))))
  }

  lemma Replies(cfg: Config, s: System, tid: nat, order: seq<Bytes>)
    requires ValidBase(cfg.base) && s.node.section.Free? && tid in s.node.threads && s.node.threads[tid].Refreshed?
    requires Order(order, s.node.t.peers.Keys)
    ensures Enabled(cfg, s, Reply(tid, order)) && forall k <- order :: k in s.node.t.peers
    ensures Apply(cfg, s, Reply(tid, order))
         == System(s.node.(threads := s.node.threads - {tid}), s.edges,
                   s.net + {AnswerTo(cfg, s.node.threads[tid], s.node.t.peers, order)})
  {
    hide EncodePacket, HeartbeatAck, Listing;
  }

  /** An edge that reads an answer to a heartbeat. */
  lemma AnswerIsRead(cfg: Config, s: System, d: Datagram, request: Packet, list: seq<Peer>, t: Table)
    requires ValidBase(cfg.base) && Lists(cfg, list, t) && d in s.net && IsRunning(s, d.dst)
    requires d.data == EncodePacket(HeartbeatAck(request, list))
    ensures Enabled(cfg, s, EdgeRecv(d)) && d.dst in Apply(cfg, s, EdgeRecv(d)).edges
    ensures
      var e, p' := s.edges[d.dst].e, Apply(cfg, s, EdgeRecv(d)).edges[d.dst];
      && Apply(cfg, s, EdgeRecv(d)) == s.(edges := s.edges[d.dst := p'])
      && p' == Proc(Running, EdgeState(e.vip, p'.e.table)) && Agrees(e.table, p'.e.table, e.vip, t)
  {
    hide EncodePacket, DecodePacket, EncodePeers, DecodePeers, Merge, Agrees, OnWire, Lists, Key, SrcOnWire, DstOnWire;
    SnapshotArrives(cfg, list, t);
    ListsFit(cfg, list, t);
    DecodeEncodeWhole(HeartbeatAck(request, list));
    assert EncodePeers(list)[..|EncodePeers(list)| % U16] == EncodePeers(list);
    ListMergeAgrees(cfg, s.edges[d.dst].e.table, s.edges[d.dst].e.vip, OnWire(list), t);
    assert s.net + {} == s.net;
  }

  /** While s.mu is free, a running edge can be refreshed: the supernode sees it now, and the edge's
      table comes to agree with the supernode's on every address but its own. */
  lemma HeartbeatSucceeds(cfg: Config, past: set<Table>, s: System, a: Addr)
    returns (steps: seq<Step>, s': System)
    requires Inv(cfg, past, s) && s.node.section.Free? && IsRunning(s, a) && |s.edges[a].e.vip| == |cfg.base|
    ensures ValidBase(cfg.base) && Goes(cfg, s, steps, s') && s.net <= s'.net && IsRunning(s', a)
    ensures
      var k := Key(s.edges[a].e.vip);
      s'.node == s.node.(t := s.node.t.(peers :=
        if k in s.node.t.peers then s.node.t.peers[k := s.node.t.peers[k].(lastSeen := s.node.now)] else s.node.t.peers))
    ensures
      var e, e' := s.edges[a].e, s'.edges[a].e;
      && s'.edges == s.edges[a := Proc(Running, e')]
      && e'.vip == e.vip && Agrees(e.table, e'.table, e.vip, Directory(s.node.t.peers))
  {
    hide Inv, Enabled, Apply, Key, Lists, Listing, Goes, Beat, AnswerTo, Order, Agrees, Directory;
    ValidBaseOf(cfg, past, s);
    var e := s.edges[a].e;
    Beats(cfg, s, a);
    var asked := Apply(cfg, s, EdgeHeartbeat(a));
    var tid := FreshThread(s.node.threads.Keys);
    var recv := BeatArrives(cfg, asked, a, e.vip, tid);
    var seen := Apply(cfg, asked, recv);
    var order := SomeOrder(seen.node.t.peers.Keys);
    Replies(cfg, seen, tid, order);
    var replied := Apply(cfg, seen, Reply(tid, order));
    GoesOne(cfg, seen, Reply(tid, order));
    GoesByStep(cfg, asked, recv, [Reply(tid, order)], replied);
    GoesByStep(cfg, s, EdgeHeartbeat(a), [recv] + [Reply(tid, order)], replied);
    steps := [EdgeHeartbeat(a)] + ([recv] + [Reply(tid, order)]);
    var more := GoesKeepsInv(cfg, past, s, steps, replied);
    ListsNow(cfg, more, replied, order);
    var d := AnswerTo(cfg, seen.node.threads[tid], seen.node.t.peers, order);
    AnswerShape(cfg, seen.node.threads[tid], seen.node.t.peers, order);
    AnswerIsRead(cfg, replied, d, seen.node.threads[tid].request, Listing(seen.node.t.peers, order), Directory(seen.node.t.peers));
    s' := Apply(cfg, replied, EdgeRecv(d));
    GoesOne(cfg, replied, EdgeRecv(d));
    GoesFurther(cfg, s, steps, replied, [EdgeRecv(d)], s');
    steps := steps + [EdgeRecv(d)];
    SameDirectory(s.node.t.peers, seen.node.t.peers);
    assert replied.node.threads == s.node.threads;
  }

  lemma AnswerShape(cfg: Config, g: Leases.Thread, peers: map<Bytes, Lease>, order: seq<Bytes>)
    requires g.Refreshed? && forall k <- order :: k in peers
    ensures AnswerTo(cfg, g, peers, order).dst == g.addr
    ensures AnswerTo(cfg, g, peers, order).data == EncodePacket(HeartbeatAck(g.request, Listing(peers, order)))
  {
  }

  lemma SameDirectory(peers: map<Bytes, Lease>, peers': map<Bytes, Lease>)
    requires peers'.Keys == peers.Keys && forall k | k in peers :: peers'[k].addr == peers[k].addr
    ensures Directory(peers') == Directory(peers)
  {
  }

  // ---- announcements, data and leaving -----------------------------------

  function Update(cfg: Config, b: Addr, vip: Bytes, addr: Addr): Datagram {
    Datagram(cfg.superAddr, b, EncodePacket(PeerUpdate(vip, addr)))
  }

  lemma Announces(cfg: Config, s: System, tid: nat, k: Bytes)
    requires ValidBase(cfg.base) && s.node.section.Free? && tid in s.node.threads && s.node.threads[tid].Announcing?
    requires k in s.node.t.peers && s.node.t.peers[k].addr != s.node.threads[tid].addr
    ensures Enabled(cfg, s, Broadcast(tid))
    ensures
      var g, s' := s.node.threads[tid], Apply(cfg, s, Broadcast(tid));
      && s' == System(s.node.(threads := s.node.threads - {tid}), s.edges, s'.net) && s.net <= s'.net
      && Update(cfg, s.node.t.peers[k].addr, g.vip, g.addr) in s'.net
  {
    hide EncodePacket, PeerUpdate;
    var g := s.node.threads[tid];
    var to, data := s.node.t.peers[k].addr, EncodePacket(PeerUpdate(g.vip, g.addr));
    assert (to, data) in Announce(s.node.t.peers, g.vip, g.addr);
    assert Datagram(cfg.superAddr, (to, data).0, (to, data).1) in Sent(cfg, s, Broadcast(tid));
  }

  lemma UpdateIsRead(cfg: Config, s: System, b: Addr, vip: Bytes, addr: Addr)
    requires ValidBase(cfg.base) && IsRunning(s, b) && |vip| == |cfg.base| && ShortAddr(cfg, addr)
    requires Update(cfg, b, vip, addr) in s.net && Key(vip) != Key(s.edges[b].e.vip)
    ensures Enabled(cfg, s, EdgeRecv(Update(cfg, b, vip, addr)))
    ensures
      var e := s.edges[b].e;
      Apply(cfg, s, EdgeRecv(Update(cfg, b, vip, addr)))
        == s.(edges := s.edges[b := Proc(Running, EdgeState(e.vip, e.table[Key(vip) := addr]))])
  {
    hide EncodePacket, PeerUpdate, HandleDatagram, Key;
    UpdateMerges(cfg, s.edges[b].e, vip, addr);
    assert s.net + {} == s.net;
  }

  /** A broadcast is sent to exactly the real addresses of leases other than the new one's. */
  lemma AnnouncesToOthers(cfg: Config, s: System, tid: nat, a: Addr)
    requires ValidBase(cfg.base) && Enabled(cfg, s, Broadcast(tid))
    ensures s.node.threads[tid].Announcing?
    ensures (exists d :: d in Sent(cfg, s, Broadcast(tid)) && d.dst == a)
            <==> a != s.node.threads[tid].addr && exists k :: k in s.node.t.peers && s.node.t.peers[k].addr == a
  {
    hide EncodePacket, PeerUpdate, Apply;
    if k :| k in s.node.t.peers && s.node.t.peers[k].addr == a && a != s.node.threads[tid].addr {
      Announces(cfg, s, tid, k);
      var g := s.node.threads[tid];
      var d := Update(cfg, a, g.vip, g.addr);
      assert (a, EncodePacket(PeerUpdate(g.vip, g.addr))) in Announce(s.node.t.peers, g.vip, g.addr);
      assert Datagram(cfg.superAddr, (a, d.data).0, (a, d.data).1) in Sent(cfg, s, Broadcast(tid));
    }
  }

  /** A registration still to be announced can be: any running edge with a lease, other than the new
      one, comes to have the new peer in its table. */
  lemma AnnouncementSucceeds(cfg: Config, past: set<Table>, s: System, tid: nat, k: Bytes)
    returns (steps: seq<Step>, s': System)
    requires Inv(cfg, past, s) && s.node.section.Free? && tid in s.node.threads && s.node.threads[tid].Announcing?
    requires k in s.node.t.peers && s.node.t.peers[k].addr != s.node.threads[tid].addr
    requires IsRunning(s, s.node.t.peers[k].addr)
    requires Key(s.node.threads[tid].vip) != Key(s.edges[s.node.t.peers[k].addr].e.vip)
    ensures ValidBase(cfg.base) && Goes(cfg, s, steps, s') && s.net <= s'.net
    ensures s'.node == s.node.(threads := s.node.threads - {tid})
    ensures
      var g, b := s.node.threads[tid], s.node.t.peers[k].addr;
      s'.edges == s.edges[b := Proc(Running, EdgeState(s.edges[b].e.vip, s.edges[b].e.table[Key(g.vip) := g.addr]))]
  {
    hide Enabled, Apply, Inv, Key, Goes, Update;
    ValidBaseOf(cfg, past, s);
    var g, b := s.node.threads[tid], s.node.t.peers[k].addr;
    AnnouncedVip(cfg, past, s, tid);
    Announces(cfg, s, tid, k);
    var told := Apply(cfg, s, Broadcast(tid));
    UpdateIsRead(cfg, told, b, g.vip, g.addr);
    var recv := EdgeRecv(Update(cfg, b, g.vip, g.addr));
    s' := Apply(cfg, told, recv);
    GoesOne(cfg, told, recv);
    GoesByStep(cfg, s, Broadcast(tid), [recv], s');
    steps := [Broadcast(tid)] + [recv];
  }

  lemma AnnouncedVip(cfg: Config, past: set<Table>, s: System, tid: nat)
    requires Inv(cfg, past, s) && tid in s.node.threads && s.node.threads[tid].Announcing?
    ensures |s.node.threads[tid].vip| == |cfg.base| && ShortAddr(cfg, s.node.threads[tid].addr)
  {
    hide Leases.Inv, GenuineNet, TruthfulTables;
    assert TruthfulThread(cfg, past, s.edges.Keys, s.node.threads[tid]);
  }

  /** What a running edge sends to a peer in its table can be delivered there, payload and sender's
      address as they were. */
  lemma DirectSendSucceeds(cfg: Config, s: System, a: Addr, dst: Bytes, payload: Bytes)
    returns (d: Datagram, s': System, pkt: Packet)
    requires ValidBase(cfg.base) && IsRunning(s, a) && |s.edges[a].e.vip| == |cfg.base| && |payload| < 65536
    requires Key(dst) in s.edges[a].e.table && IsRunning(s, s.edges[a].e.table[Key(dst)])
    ensures Goes(cfg, s, [EdgeSend(a, s.edges[a].e.table[Key(dst)], dst, payload), EdgeRecv(d)], s')
    ensures d.dst == s.edges[a].e.table[Key(dst)]
    ensures Delivered(d.data) == Some(pkt) && pkt.payload == payload && Key(pkt.src) == Key(s.edges[a].e.vip)
    ensures s'.node == s.node && s'.edges == s.edges && s.net <= s'.net
  {
    hide EncodePacket, DecodePacket, Key, SrcOnWire, DstOnWire, Delivered, HandleDatagram, Goes;
    var to, vip := s.edges[a].e.table[Key(dst)], s.edges[a].e.vip;
    DataIsDelivered(vip, dst, payload);
    d := Datagram(a, to, EncodePacket(Packet(DATA, vip, dst, payload)));
    pkt := Delivered(d.data).value;
    var send := EdgeSend(a, to, dst, payload);
    var sent := Apply(cfg, s, send);
    assert sent.edges == s.edges && d in sent.net;
    DataChangesNothing(s.edges[to].e, vip, dst, payload);
    s' := Apply(cfg, sent, EdgeRecv(d));
    GoesOne(cfg, sent, EdgeRecv(d));
    GoesByStep(cfg, s, send, [EdgeRecv(d)], s');
    assert [send] + [EdgeRecv(d)] == [send, EdgeRecv(d)];
  }

  lemma DataChangesNothing(e: EdgeState, src: Bytes, dst: Bytes, payload: Bytes)
    ensures HandleDatagram(e, EncodePacket(Packet(DATA, src, dst, payload))) == e
  {
    hide EncodePacket, DecodePacket, SrcOnWire, DstOnWire;
    DecodeEncodeWhole(Packet(DATA, src, dst, payload));
  }

  /** While s.mu is free, a running edge with a lease can leave: table, index and pool lose it, and
      nothing else. */
  lemma ByeSucceeds(cfg: Config, past: set<Table>, s: System, a: Addr) returns (steps: seq<Step>, s': System)
    requires Inv(cfg, past, s) && s.node.section.Free? && IsRunning(s, a) && |s.edges[a].e.vip| == |cfg.base|
    requires Key(s.edges[a].e.vip) in s.node.t.peers
    ensures ValidBase(cfg.base) && Goes(cfg, s, steps, s') && s.net <= s'.net
    ensures
      var k := Key(s.edges[a].e.vip);
      s'.node == s.node.(t := Tables(s.node.t.used - {k}, s.node.t.peers - {k}, s.node.t.index - {s.node.t.peers[k].addr}))
    ensures s'.edges == s.edges
  {
    hide EncodePacket, DecodePacket, Key, SrcOnWire, DstOnWire, Goes, TruthfulNode, GenuineNet, TruthfulTables;
    hide Leases.Accounted, Leases.Indexed, Leases.Sectioned;
    var vip := s.edges[a].e.vip;
    var bye := Packet(BYE, vip, [], []);
    DecodeEncodeWhole(bye);
    SourceKey(bye);
    var d := Datagram(a, cfg.superAddr, EncodePacket(bye));
    var recv := RecvBye(d, DecodePacket(d.data).value);
    var asked := Apply(cfg, s, EdgeBye(a));
    var released := Apply(cfg, asked, recv);
    s' := Apply(cfg, released, Timer(Leases.ByeRemove));
    GoesOne(cfg, released, Timer(Leases.ByeRemove));
    GoesByStep(cfg, asked, recv, [Timer(Leases.ByeRemove)], s');
    GoesByStep(cfg, s, EdgeBye(a), [recv] + [Timer(Leases.ByeRemove)], s');
    steps := [EdgeBye(a)] + ([recv] + [Timer(Leases.ByeRemove)]);
    assert s.net <= asked.net <= released.net <= s'.net;
  }

  /** What the clock and the cleanup goroutine can do alone, they can do in the network. */
  lemma {:induction false} TimersGo(cfg: Config, s: System, steps: seq<Leases.Step>, n': Leases.Node) returns (all: seq<Step>, s': System)
    requires ValidBase(cfg.base) && Leases.Goes(cfg.base, s.node, steps, n') && forall step <- steps :: Leases.OfSweep(step)
    ensures Goes(cfg, s, all, s') && s' == s.(node := n')
    decreases |steps|
  {
    hide Leases.Enabled, Leases.Apply;
    if steps == [] {
      all, s' := [], s;
    } else {
      assert steps[0] in steps && forall step <- steps[1..] :: step in steps;
      var next := Apply(cfg, s, Timer(steps[0]));
      assert next == s.(node := Leases.Apply(cfg.base, s.node, steps[0])) by { assert s.net + {} == s.net; }
      var rest;
      rest, s' := TimersGo(cfg, next, steps[1..], n');
      GoesByStep(cfg, s, Timer(steps[0]), rest, s');
      all := [Timer(steps[0])] + rest;
    }
  }

  /** While s.mu is free, at any later moment a cleanup can run to its end, and then exactly the peers
      not seen for more than five minutes are gone. */
  lemma CleanupSucceeds(cfg: Config, past: set<Table>, s: System, later: nat) returns (steps: seq<Step>, s': System)
    requires Inv(cfg, past, s) && s.node.section.Free? && s.node.now <= later
    ensures ValidBase(cfg.base) && Goes(cfg, s, steps, s') && s'.edges == s.edges && s'.net == s.net
    ensures s'.node.section.Free? && s'.node.now == later
    ensures s'.node.t.peers ==
              map k | k in s.node.t.peers && later - s.node.t.peers[k].lastSeen <= 300_000_000_000 :: s.node.t.peers[k]
  {
    hide Goes, Leases.Goes, Leases.Inv, TruthfulNode, GenuineNet, TruthfulTables;
    var timers, n' := Leases.SweepSucceeds(cfg.base, s.node, later);
    steps, s' := TimersGo(cfg, s, timers, n');
  }

  /** An edge that stops and starts again begins with nothing. */
  lemma RestartForgets(cfg: Config, s: System, a: Addr)
    requires ValidBase(cfg.base) && a in s.edges
    ensures Enabled(cfg, s, StopEdge(a))
    ensures Apply(cfg, s, StopEdge(a)) == s.(edges := s.edges[a := Proc(Idle, EdgeState([], map[]))])
  {
    assert s.net + {} == s.net;
  }

  // ---- all together ------------------------------------------------------

  /** While s.mu is free and the pool has an address, any idle edge a can join, and any running edge
      with a lease can then send it data: a continuation registers a, announces it, and delivers the
      payload to a, from the sender's own virtual address. */
  lemma NewcomerIsReached(cfg: Config, past: set<Table>, s: System, a: Addr, reg: Registration, k: Bytes, payload: Bytes)
    returns (steps: seq<Step>, s': System, d: Datagram, pkt: Packet, mid: System)
    requires Inv(cfg, past, s) && s.node.section.Free? && !(PoolKeys(cfg.base) <= s.node.t.used)
    requires a in s.edges && s.edges[a].phase.Idle? && FitRegistration(cfg, reg) && |payload| < 65536
    requires k in s.node.t.peers && IsRunning(s, s.node.t.peers[k].addr)
    requires s.edges[s.node.t.peers[k].addr].e.vip == s.node.t.peers[k].vip
    ensures ValidBase(cfg.base) && Goes(cfg, s, steps, mid) && Goes(cfg, mid, [EdgeRecv(d)], s')
    ensures d.dst == a && IsRunning(mid, a) && Key(mid.edges[a].e.vip) !in s.node.t.used
    ensures Delivered(d.data) == Some(pkt) && pkt.payload == payload && Key(pkt.src) == k
  {
    hide Inv, Enabled, Apply, Key, PoolKeys, Goes, FitRegistration, Delivered;
    LeaseShape(cfg, past, s, k);
    var b := s.node.t.peers[k].addr;
    var vip, tid, joins, joined := RegistrationSucceeds(cfg, past, s, a, reg);
    var more := GoesKeepsInv(cfg, past, s, joins, joined);
    var tells, told := AnnouncementSucceeds(cfg, more, joined, tid, k);
    var sent;
    d, sent, pkt := DirectSendSucceeds(cfg, told, b, vip, payload);
    var send := EdgeSend(b, a, vip, payload);
    SendThenRecv(cfg, told, send, EdgeRecv(d), sent);
    mid := Apply(cfg, told, send);
    s' := sent;
    GoesFurther(cfg, s, joins, joined, tells, told);
    GoesFurther(cfg, s, joins + tells, told, [send], mid);
    steps := joins + tells + [send];
  }

  lemma LeaseShape(cfg: Config, past: set<Table>, s: System, k: Bytes)
    requires Inv(cfg, past, s) && s.node.section.Free? && k in s.node.t.peers
    ensures ValidBase(cfg.base) && |s.node.t.peers[k].vip| == |cfg.base| && Key(s.node.t.peers[k].vip) == k && k in s.node.t.used
  {
    hide GenuineNet, TruthfulTables, TruthfulNode, Leases.Indexed, Key, PoolKeys;
  }

  lemma SendThenRecv(cfg: Config, s: System, send: Step, recv: Step, s': System)
    requires ValidBase(cfg.base) && Goes(cfg, s, [send, recv], s') && send.EdgeSend?
    ensures Enabled(cfg, s, send) && Goes(cfg, s, [send], Apply(cfg, s, send)) && Goes(cfg, Apply(cfg, s, send), [recv], s')
    ensures Apply(cfg, s, send).edges == s.edges
  {
    hide Sent, Leases.Enabled, Leases.Apply;
    assert [send, recv][1..] == [recv];
    assert Enabled(cfg, s, send);
    GoesOne(cfg, s, send);
  }
}
