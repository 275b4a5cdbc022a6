/** The relay at work: one server, any number of clients, and a network that may lose,
    duplicate, delay and reorder datagrams. Every packet has its own goroutine, so the two
    locked regions of a handler are separate steps. Peer-list payloads and STUN answers may be
    any bytes: nothing here depends on them. */
module StunvpvRelay {
  import opened Bytes
  import opened IP
  import N2nProtocol
  import opened N2nSupernode
  import opened Options
  import opened Stunvpv

  datatype Datagram = Datagram(from: Addr, to: Addr, data: Bytes)

  /** A handler between its two locked regions. */
  datatype Thread =
    | Admitting(vip: Bytes, addr: Addr, hostname: Bytes)
    | Relaying(to: Addr, from: Addr, payload: Bytes)

  datatype System = System(t: Tables, threads: map<nat, Thread>, net: set<Datagram>, now: nat)

  datatype Step =
    | Tick(later: nat)
    | ClientRegister(a: Addr, vip: Bytes, hostname: Bytes)
    | ClientSend(a: Addr, dst: Bytes, payload: Bytes)
    | ClientBind(a: Addr, request: Bytes)
    | RecvRegister(d: Datagram, tid: nat, vip: Bytes)
    | Enter(tid: nat, list: Bytes)
    | Broadcast(k: Bytes, list: Bytes)
    | RecvData(d: Datagram, tid: nat)
    | Forward(tid: nat)
    | AnswerStun(d: Datagram, reply: Bytes)
    | Sweep
    | Deliver(d: Datagram)

  /** How STUN binding requests and successes start (section 6 of RFC 5389). */
  const BINDING_REQUEST: Bytes := [0x00, 0x01]
  const BINDING_SUCCESS: Bytes := [0x01, 0x01]

  ghost predicate Arrived(s: System, d: Datagram, server: Addr, kind: byte) {
    && d in s.net && d.to == server && !IsStun(d.data)
    && DecodeControl(d.data).Control? && DecodeControl(d.data).kind == kind
  }

  ghost predicate Enabled(base: Bytes, server: Addr, s: System, step: Step)
    requires ValidBase(base)
  {
    match step
    case Tick(later) => s.now <= later
    case ClientRegister(a, vip, hostname) => a != server && |hostname| < U16
    case ClientSend(a, dst, payload) => a != server && |payload| < U16
    case ClientBind(a, request) => a != server && IsStun(request) && BINDING_REQUEST <= request
    case RecvRegister(d, tid, vip) =>
      && tid !in s.threads && Arrived(s, d, server, REGISTER)
      && Assigned(base, s.t.used, DecodeControl(d.data).vip) == Some(vip)
    case Enter(tid, list) => tid in s.threads && s.threads[tid].Admitting?
    case Broadcast(k, list) => k in s.t.peers
    case RecvData(d, tid) =>
      tid !in s.threads && Arrived(s, d, server, DATA) && Key(DecodeControl(d.data).vip) in s.t.peers
    case Forward(tid) => tid in s.threads && s.threads[tid].Relaying?
    case AnswerStun(d, reply) =>
      d in s.net && d.to == server && IsStun(d.data) && BINDING_REQUEST <= d.data && BINDING_SUCCESS <= reply
    case Sweep => true
    case Deliver(d) => d in s.net && d.to != server && Callback(d.data).Some?
  }

  ghost function Apply(base: Bytes, server: Addr, s: System, step: Step): System
    requires ValidBase(base) && Enabled(base, server, s, step)
  {
    match step
    case Tick(later) => s.(now := later)
    case ClientRegister(a, vip, hostname) =>
      s.(net := s.net + {Datagram(a, server, EncodeControl(REGISTER, vip, hostname))})
    case ClientSend(a, dst, payload) => s.(net := s.net + {Datagram(a, server, EncodeControl(DATA, dst, payload))})
    case ClientBind(a, request) => s.(net := s.net + {Datagram(a, server, request)})
    case RecvRegister(d, tid, vip) =>
      var used := if IsUnspecified(DecodeControl(d.data).vip) then s.t.used + {Key(vip)} else s.t.used;
      s.(t := s.t.(used := used), threads := s.threads[tid := Admitting(vip, d.from, DecodeControl(d.data).payload)])
    case Enter(tid, list) =>
      var g := s.threads[tid];
      s.(t := Registered(s.t, g.vip, g.addr, g.hostname, s.now), threads := s.threads - {tid},
         net := s.net + {Datagram(server, g.addr, EncodeControl(REGISTER_ACK, g.vip, list))})
    case Broadcast(k, list) =>
      var p := s.t.peers[k];
      s.(net := s.net + {Datagram(server, p.addr, EncodeControl(PEER_LIST, p.vip, list))})
    case RecvData(d, tid) =>
      var msg := DecodeControl(d.data);
      s.(threads := s.threads[tid := Relaying(s.t.peers[Key(msg.vip)].addr, d.from, msg.payload)])
    case Forward(tid) =>
      var g := s.threads[tid];
      var net := if g.from in s.t.index && To16(s.t.index[g.from]) != []
        then s.net + {Datagram(server, g.to, EncodeControl(DATA, To16(s.t.index[g.from]), g.payload))} else s.net;
      s.(threads := s.threads - {tid}, net := net)
    case AnswerStun(d, reply) => s.(net := s.net + {Datagram(server, d.from, reply)})
    case Sweep => s.(t := Swept(s.t, s.now))
    case Deliver(d) => s
  }

  ghost predicate Run(base: Bytes, server: Addr, states: seq<System>, steps: seq<Step>)
    requires ValidBase(base)
  {
    && |states| == |steps| + 1
    && states[0] == System(Tables({}, map[], map[]), map[], {}, 0)
    && forall i :: 0 <= i < |steps| ==>
         Enabled(base, server, states[i], steps[i]) && states[i + 1] == Apply(base, server, states[i], steps[i])
  }

  // ---- what has happened so far ------------------------------------------

  /** Every SendTo and every entry made in the server's tables up to some moment. */
  datatype History = History(sent: set<(Addr, Bytes, Bytes)>, entered: set<(Bytes, Addr)>)

  ghost function Record(h: History, s: System, step: Step): History {
    match step
    case ClientSend(a, dst, payload) => h.(sent := h.sent + {(a, dst, payload)})
    case Enter(tid, list) =>
      if tid in s.threads && s.threads[tid].Admitting?
      then h.(entered := h.entered + {(Key(s.threads[tid].vip), s.threads[tid].addr)}) else h
    case _ => h
  }

  ghost function Past(states: seq<System>, steps: seq<Step>): History
    requires |states| > |steps|
  {
    if steps == [] then History({}, {})
    else Record(Past(states, steps[..|steps| - 1]), states[|steps| - 1], steps[|steps| - 1])
  }

  // ---- the invariant -----------------------------------------------------

  /** The sender called SendTo with this payload, for an address under which the receiver was
      entered. */
  ghost predicate Meant(h: History, from: Addr, to: Addr, payload: Bytes) {
    |payload| < U16 && exists dst :: (from, dst, payload) in h.sent && (Key(VipOnWire(dst)), to) in h.entered
  }

  /** ... and src is an address under which the sender was entered. */
  ghost predicate Explained(h: History, to: Addr, src: Bytes, payload: Bytes) {
    exists from :: (src, from) in h.entered && Meant(h, from, to, payload)
  }

  ghost predicate GoodEntry(server: Addr, k: Bytes, a: Addr) {
    (|k| == 4 || |k| == 16) && Key(k) == k && !IsUnspecified(k) && a != server
  }

  ghost predicate GoodThread(server: Addr, h: History, g: Thread) {
    match g
    case Admitting(vip, addr, hostname) => GoodEntry(server, Key(vip), addr)
    case Relaying(to, from, payload) => Meant(h, from, to, payload)
  }

  ghost predicate FromClient(server: Addr, h: History, d: Datagram) {
    d.from != server && (Registers(d.data) || Sends(h, d) || IsStun(d.data))
  }

  ghost predicate Registers(data: Bytes) {
    exists vip, hostname :: data == EncodeControl(REGISTER, vip, hostname)
  }

  ghost predicate Sends(h: History, d: Datagram) {
    exists dst, payload ::
      |payload| < U16 && d.data == EncodeControl(DATA, dst, payload) && (d.from, dst, payload) in h.sent
  }

  ghost predicate FromServer(h: History, d: Datagram) {
    forall src, payload :: Callback(d.data) == Some((src, payload)) ==> Explained(h, d.to, src, payload)
  }

  ghost predicate GoodTables(h: History, t: Tables) {
    && (forall k | k in t.peers :: (k, t.peers[k].addr) in h.entered)
    && (forall a | a in t.index :: (t.index[a], a) in h.entered)
  }

  ghost predicate GoodHistory(server: Addr, h: History) {
    forall e | e in h.entered :: GoodEntry(server, e.0, e.1)
  }

  ghost predicate GoodNet(server: Addr, h: History, net: set<Datagram>) {
    forall d | d in net :: if d.to == server then FromClient(server, h, d) else FromServer(h, d)
  }

  ghost predicate Inv(server: Addr, h: History, s: System) {
    && GoodHistory(server, h) && GoodTables(h, s.t) && GoodNet(server, h, s.net)
    && forall i | i in s.threads :: GoodThread(server, h, s.threads[i])
  }

  // ---- what each message can be ------------------------------------------

  lemma NoCallback(kind: byte, vip: Bytes, payload: Bytes)
    requires kind != DATA
    ensures Callback(EncodeControl(kind, vip, payload)).None?
  {
    hide EncodeControl, VipOnWire;
    DecodeEncodeControl(kind, vip, payload);
  }

  lemma StunReachesNobody(reply: Bytes)
    requires BINDING_SUCCESS <= reply
    ensures Callback(reply).None?
  {
    assert |reply| >= 2 && reply[1] == BINDING_SUCCESS[1];
  }

  lemma PoolKeyIsGood(base: Bytes, vip: Bytes)
    requires ValidBase(base) && Key(vip) in PoolKeys(base)
    ensures (|Key(vip)| == 4 || |Key(vip)| == 16) && !IsUnspecified(Key(vip))
  {
    var i: byte :| FIRST_HOST <= i < LAST_HOST && Key(vip) == Key(PoolIp(base, i));
    KeyKeepsLastByte(PoolIp(base, i));
  }

  /** The data message of a client, as the server reads it. */
  lemma ClientData(server: Addr, h: History, d: Datagram)
    requires FromClient(server, h, d) && !IsStun(d.data)
    requires DecodeControl(d.data).Control? && DecodeControl(d.data).kind == DATA
    ensures var msg := DecodeControl(d.data);
      |msg.payload| < U16 && exists dst :: msg.vip == VipOnWire(dst) && (d.from, dst, msg.payload) in h.sent
  {
    hide EncodeControl, DecodeControl, VipOnWire;
    if vip, hostname :| d.data == EncodeControl(REGISTER, vip, hostname) {
      DecodeEncodeControl(REGISTER, vip, hostname);
    }
    var dst, payload :| |payload| < U16 && d.data == EncodeControl(DATA, dst, payload) && (d.from, dst, payload) in h.sent;
    DecodeEncodeControl(DATA, dst, payload);
    assert payload[..|payload| % U16] == payload;
  }

  /** The message Forward sends carries the payload and the sender's own address. */
  lemma ForwardedData(server: Addr, h: History, k: Bytes, g: Thread)
    requires g.Relaying? && Meant(h, g.from, g.to, g.payload) && (k, g.from) in h.entered && GoodEntry(server, k, g.from)
    ensures FromServer(h, Datagram(server, g.to, EncodeControl(DATA, To16(k), g.payload)))
  {
    hide EncodeControl, DecodeControl, VipOnWire, Meant, Key, To16;
    ParsedKey(k);
    DecodeEncodeControl(DATA, To16(k), g.payload);
    assert |g.payload| < U16 by { MeantIsShort(h, g.from, g.to, g.payload); }
    assert g.payload[..|g.payload| % U16] == g.payload;
    assert Callback(EncodeControl(DATA, To16(k), g.payload)) == Some((k, g.payload));
    assert Explained(h, g.to, k, g.payload);
  }

  lemma MeantIsShort(h: History, from: Addr, to: Addr, payload: Bytes)
    requires Meant(h, from, to, payload)
    ensures |payload| < U16
  {
  }

  // ---- history only grows ------------------------------------------------

  ghost predicate Grows(h: History, h': History) {
    h.sent <= h'.sent && h.entered <= h'.entered
  }

  lemma MeantGrows(h: History, h': History, from: Addr, to: Addr, payload: Bytes)
    requires Grows(h, h') && Meant(h, from, to, payload)
    ensures Meant(h', from, to, payload)
  {
    hide Key, VipOnWire;
    var dst :| (from, dst, payload) in h.sent && (Key(VipOnWire(dst)), to) in h.entered;
    assert (from, dst, payload) in h'.sent && (Key(VipOnWire(dst)), to) in h'.entered;
  }

  lemma ThreadGrows(server: Addr, h: History, h': History, g: Thread)
    requires Grows(h, h') && GoodThread(server, h, g)
    ensures GoodThread(server, h', g)
  {
    hide GoodEntry, Meant;
    if g.Relaying? { MeantGrows(h, h', g.from, g.to, g.payload); }
  }

  lemma DatagramGrows(server: Addr, h: History, h': History, d: Datagram)
    requires Grows(h, h')
    ensures FromClient(server, h, d) ==> FromClient(server, h', d)
    ensures FromServer(h, d) ==> FromServer(h', d)
  {
    hide Meant, EncodeControl, Callback;
    if FromServer(h, d) {
      forall src, payload | Callback(d.data) == Some((src, payload)) ensures Explained(h', d.to, src, payload) {
        var from :| (src, from) in h.entered && Meant(h, from, d.to, payload);
        MeantGrows(h, h', from, d.to, payload);
        assert (src, from) in h'.entered;
      }
    }
  }

  /** Everything already there stays good when history grows; what is new must be shown good. */
  lemma InvGrows(server: Addr, h: History, s: System, h': History, s': System)
    requires Inv(server, h, s) && Grows(h, h')
    requires GoodHistory(server, h') && GoodTables(h', s'.t)
    requires forall d | d in s'.net - s.net :: if d.to == server then FromClient(server, h', d) else FromServer(h', d)
    requires forall i | i in s'.threads ::
               (i in s.threads && s'.threads[i] == s.threads[i]) || GoodThread(server, h', s'.threads[i])
    ensures Inv(server, h', s')
  {
    hide GoodHistory, GoodTables, FromClient, FromServer, GoodThread;
    forall d | d in s'.net ensures if d.to == server then FromClient(server, h', d) else FromServer(h', d) {
      DatagramGrows(server, h, h', d);
      assert d !in s.net ==> d in s'.net - s.net;
    }
    forall i | i in s'.threads ensures GoodThread(server, h', s'.threads[i]) {
      if i in s.threads && s'.threads[i] == s.threads[i] { ThreadGrows(server, h, h', s.threads[i]); }
    }
  }

  // ---- each step keeps the invariant -------------------------------------

  lemma ClientStep(base: Bytes, server: Addr, h: History, s: System, step: Step)
    requires ValidBase(base) && Inv(server, h, s) && Enabled(base, server, s, step)
    requires step.ClientRegister? || step.ClientSend? || step.ClientBind?
    ensures Inv(server, Record(h, s, step), Apply(base, server, s, step))
  {
    hide GoodEntry, FromServer, GoodThread, EncodeControl;
    var h', s' := Record(h, s, step), Apply(base, server, s, step);
    assert GoodTables(h', s'.t) && GoodHistory(server, h');
    forall d | d in s'.net - s.net ensures d.to == server && FromClient(server, h', d) {
      match step {
        case ClientRegister(a, vip, hostname) =>
          assert d.data == EncodeControl(REGISTER, vip, hostname);
        case ClientSend(a, dst, payload) =>
          assert d.data == EncodeControl(DATA, dst, payload) && (d.from, dst, payload) in h'.sent;
        case _ =>
      }
    }
    InvGrows(server, h, s, h', s');
  }

  lemma DecodedKey(data: Bytes)
    requires DecodeControl(data).Control? && !IsUnspecified(DecodeControl(data).vip)
    ensures var k := Key(DecodeControl(data).vip); (|k| == 4 || |k| == 16) && !IsUnspecified(k)
  {
    KeyIdempotent(DecodeControl(data).vip);
  }

  lemma RecvRegisterStep(base: Bytes, server: Addr, h: History, s: System, step: Step)
    requires ValidBase(base) && Inv(server, h, s) && Enabled(base, server, s, step) && step.RecvRegister?
    ensures Inv(server, h, Apply(base, server, s, step))
  {
    hide GoodHistory, FromServer, EncodeControl, DecodeControl, Key, PoolKeys, FirstFree, IsUnspecified;
    var s' := Apply(base, server, s, step);
    var d, vip := step.d, step.vip;
    assert FromClient(server, h, d);
    assert GoodEntry(server, Key(vip), d.from) by {
      KeyIdempotent(vip);
      FirstFreeSpec(base, s.t.used);
      if IsUnspecified(DecodeControl(d.data).vip) { PoolKeyIsGood(base, vip); } else { DecodedKey(d.data); }
    }
    assert GoodTables(h, s'.t);
    InvGrows(server, h, s, h, s');
  }

  lemma EnterStep(base: Bytes, server: Addr, h: History, s: System, step: Step)
    requires ValidBase(base) && Inv(server, h, s) && Enabled(base, server, s, step) && step.Enter?
    ensures Inv(server, Record(h, s, step), Apply(base, server, s, step))
  {
    hide GoodEntry, FromClient, EncodeControl, Callback, Key;
    var h', s' := Record(h, s, step), Apply(base, server, s, step);
    var g := s.threads[step.tid];
    assert GoodEntry(server, Key(g.vip), g.addr) by { assert GoodThread(server, h, g); }
    AdmitNotToServer(server, Key(g.vip), g.addr);
    NoCallback(REGISTER_ACK, g.vip, step.list);
    assert GoodHistory(server, h');
    assert GoodTables(h', s'.t);
    InvGrows(server, h, s, h', s');
  }

  lemma AdmitNotToServer(server: Addr, k: Bytes, a: Addr)
    requires GoodEntry(server, k, a)
    ensures a != server
  {
  }

  lemma BroadcastStep(base: Bytes, server: Addr, h: History, s: System, step: Step)
    requires ValidBase(base) && Inv(server, h, s) && Enabled(base, server, s, step) && step.Broadcast?
    ensures Inv(server, h, Apply(base, server, s, step))
  {
    hide FromClient, GoodThread, EncodeControl, Callback, Key;
    var s', p := Apply(base, server, s, step), s.t.peers[step.k];
    assert GoodEntry(server, step.k, p.addr) by { assert (step.k, p.addr) in h.entered; }
    NoCallback(PEER_LIST, p.vip, step.list);
    InvGrows(server, h, s, h, s');
  }

  lemma RecvDataStep(base: Bytes, server: Addr, h: History, s: System, step: Step)
    requires ValidBase(base) && Inv(server, h, s) && Enabled(base, server, s, step) && step.RecvData?
    ensures Inv(server, h, Apply(base, server, s, step))
  {
    hide GoodHistory, FromClient, FromServer, EncodeControl, DecodeControl, Key, VipOnWire, IsStun;
    var s', d := Apply(base, server, s, step), step.d;
    assert FromClient(server, h, d);
    ClientData(server, h, d);
    var msg := DecodeControl(d.data);
    var to := s.t.peers[Key(msg.vip)].addr;
    assert (Key(msg.vip), to) in h.entered;
    assert Meant(h, d.from, to, msg.payload);
    InvGrows(server, h, s, h, s');
  }

  lemma ForwardStep(base: Bytes, server: Addr, h: History, s: System, step: Step)
    requires ValidBase(base) && Inv(server, h, s) && Enabled(base, server, s, step) && step.Forward?
    ensures Inv(server, h, Apply(base, server, s, step))
  {
    hide FromClient, FromServer, EncodeControl, Key, To16, GoodEntry;
    var s', g := Apply(base, server, s, step), s.threads[step.tid];
    assert Meant(h, g.from, g.to, g.payload) by { assert GoodThread(server, h, g); }
    MeantNotToServer(server, h, g.from, g.to, g.payload);
    if g.from in s.t.index {
      var k := s.t.index[g.from];
      assert (k, g.from) in h.entered;
      ForwardedData(server, h, k, g);
    }
    InvGrows(server, h, s, h, s');
  }

  lemma MeantNotToServer(server: Addr, h: History, from: Addr, to: Addr, payload: Bytes)
    requires GoodHistory(server, h) && Meant(h, from, to, payload)
    ensures to != server
  {
    hide Key, VipOnWire;
    var dst :| (from, dst, payload) in h.sent && (Key(VipOnWire(dst)), to) in h.entered;
    assert GoodEntry(server, Key(VipOnWire(dst)), to);
  }

  lemma OtherStep(base: Bytes, server: Addr, h: History, s: System, step: Step)
    requires ValidBase(base) && Inv(server, h, s) && Enabled(base, server, s, step)
    requires step.Tick? || step.AnswerStun? || step.Sweep? || step.Deliver?
    ensures Inv(server, h, Apply(base, server, s, step))
  {
    hide GoodHistory, GoodThread, EncodeControl, Callback, IsStun;
    var s' := Apply(base, server, s, step);
    if step.AnswerStun? {
      assert FromClient(server, h, step.d);
      StunReachesNobody(step.reply);
    }
    assert GoodTables(h, s'.t);
    InvGrows(server, h, s, h, s');
  }

  lemma StepKeepsInv(base: Bytes, server: Addr, h: History, s: System, step: Step)
    requires ValidBase(base) && Inv(server, h, s) && Enabled(base, server, s, step)
    ensures Inv(server, Record(h, s, step), Apply(base, server, s, step))
  {
    hide Inv, Enabled, Apply;
    match step {
      case ClientRegister(_, _, _) => ClientStep(base, server, h, s, step);
      case ClientSend(_, _, _) => ClientStep(base, server, h, s, step);
      case ClientBind(_, _) => ClientStep(base, server, h, s, step);
      case RecvRegister(_, _, _) => RecvRegisterStep(base, server, h, s, step);
      case Enter(_, _) => EnterStep(base, server, h, s, step);
      case Broadcast(_, _) => BroadcastStep(base, server, h, s, step);
      case RecvData(_, _) => RecvDataStep(base, server, h, s, step);
      case Forward(_) => ForwardStep(base, server, h, s, step);
      case _ => OtherStep(base, server, h, s, step);
    }
  }

  lemma {:induction false} RunKeepsInv(base: Bytes, server: Addr, states: seq<System>, steps: seq<Step>)
    requires ValidBase(base) && Run(base, server, states, steps)
    ensures Inv(server, Past(states, steps), states[|steps|])
    decreases |steps|
  {
    hide Inv, Enabled, Apply, Record;
    if steps == [] {
      InitialInv(server, states[0]);
    } else {
      var n := |steps| - 1;
      PastOfPrefix(states, steps[..n]);
      RunKeepsInv(base, server, states[..n + 1], steps[..n]);
      StepKeepsInv(base, server, Past(states, steps[..n]), states[n], steps[n]);
    }
  }

  lemma InitialInv(server: Addr, s: System)
    requires s == System(Tables({}, map[], map[]), map[], {}, 0)
    ensures Inv(server, History({}, {}), s)
  {
  }

  lemma {:induction false} PastOfPrefix(states: seq<System>, steps: seq<Step>)
    requires |states| > |steps|
    ensures Past(states[..|steps| + 1], steps) == Past(states, steps)
    decreases |steps|
  {
    hide Record;
    if steps != [] {
      var n := |steps| - 1;
      PastOfPrefix(states, steps[..n]);
      PastOfPrefix(states[..|steps| + 1], steps[..n]);
      assert states[..|steps| + 1][..n + 1] == states[..n + 1];
    }
  }

  // ---- main results ------------------------------------------------------

  ghost predicate SentBefore(steps: seq<Step>, from: Addr, dst: Bytes, payload: Bytes) {
    exists i :: 0 <= i < |steps| && steps[i] == ClientSend(from, dst, payload)
  }

  ghost predicate EnteredAt(states: seq<System>, steps: seq<Step>, i: nat, k: Bytes, a: Addr)
    requires |states| > |steps|
  {
    && i < |steps| && steps[i].Enter? && steps[i].tid in states[i].threads
    && var g := states[i].threads[steps[i].tid]; g.Admitting? && Key(g.vip) == k && g.addr == a
  }

  /** History holds what the steps did, and nothing else. */
  lemma {:induction false} PastIsTheSteps(states: seq<System>, steps: seq<Step>)
    requires |states| > |steps|
    ensures forall from, dst, payload ::
              (from, dst, payload) in Past(states, steps).sent <==> SentBefore(steps, from, dst, payload)
    ensures forall k, a :: (k, a) in Past(states, steps).entered <==> exists i :: EnteredAt(states, steps, i, k, a)
  {
    hide Key;
    if steps != [] {
      var n := |steps| - 1;
      var before, last := steps[..n], steps[n];
      PastIsTheSteps(states, before);
      forall from, dst, payload
        ensures (from, dst, payload) in Past(states, steps).sent <==> SentBefore(steps, from, dst, payload)
      {
        if SentBefore(before, from, dst, payload) {
          var i :| 0 <= i < |before| && before[i] == ClientSend(from, dst, payload);
          assert steps[i] == before[i];
        }
        assert last == ClientSend(from, dst, payload) ==> SentBefore(steps, from, dst, payload);
        if SentBefore(steps, from, dst, payload) {
          var i :| 0 <= i < |steps| && steps[i] == ClientSend(from, dst, payload);
          assert i < n ==> before[i] == steps[i];
        }
      }
      forall k, a
        ensures (k, a) in Past(states, steps).entered <==> exists i :: EnteredAt(states, steps, i, k, a)
      {
        LastEntry(states, steps, k, a);
        forall i: nat ensures i != n ==> (EnteredAt(states, steps, i, k, a) <==> EnteredAt(states, before, i, k, a)) {
          assert i < n ==> before[i] == steps[i];
        }
        assert !EnteredAt(states, before, n, k, a);
      }
    }
  }

  lemma LastEntry(states: seq<System>, steps: seq<Step>, k: Bytes, a: Addr)
    requires |states| > |steps| > 0
    ensures var n := |steps| - 1;
      (k, a) in Past(states, steps).entered <==>
      (k, a) in Past(states, steps[..n]).entered || EnteredAt(states, steps, n, k, a)
  {
    hide Key;
  }

  /** Whatever a client's callback is given on any run was passed to SendTo before, unchanged,
      for an address under which that client was entered, and comes with an address under which
      the caller of SendTo was entered. Nothing sent to an unspecified address is ever
      delivered. */
  lemma DeliveredWasSent(base: Bytes, server: Addr, states: seq<System>, steps: seq<Step>, d: Datagram, src: Bytes, payload: Bytes)
    requires ValidBase(base) && Run(base, server, states, steps)
    requires d in states[|steps|].net && d.to != server && Callback(d.data) == Some((src, payload))
    ensures exists from, dst, i, j ::
              && SentBefore(steps, from, dst, payload) && !IsUnspecified(VipOnWire(dst))
              && EnteredAt(states, steps, i, src, from)
              && EnteredAt(states, steps, j, Key(VipOnWire(dst)), d.to)
  {
    hide Enabled, Apply, Callback, VipOnWire, Key, EnteredAt, SentBefore, Run, IsUnspecified, Past;
    RunKeepsInv(base, server, states, steps);
    RunShape(base, server, states, steps);
    var h := Past(states, steps);
    PastIsTheSteps(states, steps);
    assert FromServer(h, d) && Explained(h, d.to, src, payload);
    var from :| (src, from) in h.entered && Meant(h, from, d.to, payload);
    var dst :| (from, dst, payload) in h.sent && (Key(VipOnWire(dst)), d.to) in h.entered;
    assert GoodEntry(server, Key(VipOnWire(dst)), d.to);
    SpecifiedKey(VipOnWire(dst));
    var i :| EnteredAt(states, steps, i, src, from);
    var j :| EnteredAt(states, steps, j, Key(VipOnWire(dst)), d.to);
    assert SentBefore(steps, from, dst, payload);
  }

  lemma RunShape(base: Bytes, server: Addr, states: seq<System>, steps: seq<Step>)
    requires ValidBase(base) && Run(base, server, states, steps)
    ensures |states| == |steps| + 1
  {
  }

  lemma SpecifiedKey(ip: Bytes)
    requires !IsUnspecified(Key(ip))
    ensures !IsUnspecified(ip)
  {
    KeyIdempotent(ip);
  }

  /** In every reachable state the index holds only addresses that parse, so the end-to-end
      theorem applies there. */
  lemma ReachableIndexIsValid(base: Bytes, server: Addr, states: seq<System>, steps: seq<Step>)
    requires ValidBase(base) && Run(base, server, states, steps)
    ensures ValidIndex(states[|steps|].t)
  {
    hide Enabled, Apply, Key, Past;
    RunKeepsInv(base, server, states, steps);
    var t := states[|steps|].t;
    forall a | a in t.index ensures (|t.index[a]| == 4 || |t.index[a]| == 16) && Key(t.index[a]) == t.index[a] {
      assert GoodEntry(server, t.index[a], a);
    }
  }

  // ---- what can always still happen --------------------------------------

  /** The steps can be taken one after the other from s, and lead to s'. */
  ghost predicate Goes(base: Bytes, server: Addr, s: System, steps: seq<Step>, s': System)
    requires ValidBase(base)
    decreases |steps|
  {
    if steps == [] then s' == s
    else Enabled(base, server, s, steps[0]) && Goes(base, server, Apply(base, server, s, steps[0]), steps[1..], s')
  }

  lemma GoesByStep(base: Bytes, server: Addr, s: System, step: Step, steps: seq<Step>, s': System)
    requires ValidBase(base) && Enabled(base, server, s, step) && Goes(base, server, Apply(base, server, s, step), steps, s')
    ensures Goes(base, server, s, [step] + steps, s')
  {
    hide Enabled, Apply;
    assert ([step] + steps)[1..] == steps;
  }

  lemma GoesOne(base: Bytes, server: Addr, s: System, step: Step)
    requires ValidBase(base) && Enabled(base, server, s, step)
    ensures Goes(base, server, s, [step], Apply(base, server, s, step))
  {
    hide Enabled, Apply;
    GoesByStep(base, server, s, step, [], Apply(base, server, s, step));
    assert [step] + [] == [step];
  }

  lemma {:induction false} FreshThread(tids: set<nat>) returns (tid: nat)
    ensures tid !in tids && forall i | i in tids :: i < tid
    decreases |tids|
  {
    if tids == {} {
      tid := 0;
    } else {
      var i :| i in tids;
      var above := FreshThread(tids - {i});
      tid := if above > i then above else i + 1;
      forall j | j in tids ensures j < tid {
        if j != i { assert j in tids - {i}; }
      }
    }
  }

  /** A payload for a registered address, from a client in the index, can go all the way: SendTo, the
      two locked regions of the server, the callback of the client that registered. What arrives, and
      from whom, is what Trip says. */
  lemma PayloadGoesThrough(base: Bytes, server: Addr, h: History, s: System, a: Addr, dst: Bytes, payload: Bytes)
    returns (tid: nat, sent: Datagram, d: Datagram, s': System)
    requires ValidBase(base) && Inv(server, h, s) && a != server && |payload| < 65536
    requires Key(VipOnWire(dst)) in s.t.peers && a in s.t.index && !CarriesMagic(dst)
    ensures Goes(base, server, s, [ClientSend(a, dst, payload), RecvData(sent, tid), Forward(tid), Deliver(d)], s')
    ensures d.to == s.t.peers[Key(VipOnWire(dst))].addr && Callback(d.data) == Some((s.t.index[a], payload))
    ensures Trip(s.t, a, dst, payload) == Some(Delivery(d.to, s.t.index[a], payload))
    ensures s'.t == s.t && s'.threads == s.threads && s'.net == s.net + {sent, d}
  {
    hide Enabled, Apply, Inv, EncodeControl, Key, VipOnWire, To16, CarriesMagic, Goes, Trip, Callback;
    tid := FreshThread(s.threads.Keys);
    var k := Key(VipOnWire(dst));
    TablesAreGood(server, h, s, k, a);
    sent := Datagram(a, server, EncodeControl(DATA, dst, payload));
    d := Datagram(server, s.t.peers[k].addr, EncodeControl(DATA, To16(s.t.index[a]), payload));
    var send, recv, forward := ClientSend(a, dst, payload), RecvData(sent, tid), Forward(tid);
    SendStep(base, server, s, a, dst, payload);
    var s1 := Apply(base, server, s, send);
    ReceiveStep(base, server, s1, a, dst, payload, tid);
    var s2 := Apply(base, server, s1, recv);
    ForwardsOn(base, server, s2, tid);
    s' := Apply(base, server, s2, forward);
    GoesOne(base, server, s', Deliver(d));
    GoesByStep(base, server, s2, forward, [Deliver(d)], s');
    GoesByStep(base, server, s1, recv, [forward] + [Deliver(d)], s');
    GoesByStep(base, server, s, send, [recv] + ([forward] + [Deliver(d)]), s');
    assert [send] + ([recv] + ([forward] + [Deliver(d)])) == [send, recv, forward, Deliver(d)];
    assert s'.threads == s.threads && s'.net == s.net + {sent, d};
    IndexIsValid(server, h, s);
    PayloadArrivesIff(s.t, a, dst, payload);
  }

  lemma SendStep(base: Bytes, server: Addr, s: System, a: Addr, dst: Bytes, payload: Bytes)
    requires ValidBase(base) && a != server && |payload| < U16
    ensures Enabled(base, server, s, ClientSend(a, dst, payload))
    ensures Apply(base, server, s, ClientSend(a, dst, payload))
         == s.(net := s.net + {Datagram(a, server, EncodeControl(DATA, dst, payload))})
  {
    hide EncodeControl;
  }

  lemma ReceiveStep(base: Bytes, server: Addr, s: System, a: Addr, dst: Bytes, payload: Bytes, tid: nat)
    requires ValidBase(base) && |payload| < U16 && !CarriesMagic(dst) && Key(VipOnWire(dst)) in s.t.peers && tid !in s.threads
    requires Datagram(a, server, EncodeControl(DATA, dst, payload)) in s.net
    ensures
      var recv := RecvData(Datagram(a, server, EncodeControl(DATA, dst, payload)), tid);
      && Enabled(base, server, s, recv)
      && Apply(base, server, s, recv)
           == s.(threads := s.threads[tid := Relaying(s.t.peers[Key(VipOnWire(dst))].addr, a, payload)])
  {
    hide EncodeControl, DecodeControl, Key, VipOnWire, CarriesMagic, IsStun;
    DataArrives(dst, payload);
  }

  lemma ForwardsOn(base: Bytes, server: Addr, s: System, tid: nat)
    requires ValidBase(base) && tid in s.threads && s.threads[tid].Relaying? && |s.threads[tid].payload| < U16
    requires s.threads[tid].to != server && s.threads[tid].from in s.t.index
    requires (|s.t.index[s.threads[tid].from]| == 4 || |s.t.index[s.threads[tid].from]| == 16)
             && Key(s.t.index[s.threads[tid].from]) == s.t.index[s.threads[tid].from]
    ensures Enabled(base, server, s, Forward(tid))
    ensures
      var g, s' := s.threads[tid], Apply(base, server, s, Forward(tid));
      var d := Datagram(server, g.to, EncodeControl(DATA, To16(s.t.index[g.from]), g.payload));
      && s' == s.(threads := s.threads - {tid}, net := s.net + {d})
      && Callback(d.data) == Some((s.t.index[g.from], g.payload))
      && Enabled(base, server, s', Deliver(d)) && Apply(base, server, s', Deliver(d)) == s'
  {
    hide EncodeControl, DecodeControl, Key, VipOnWire, To16, IsStun, Callback;
    DataForwarded(s.t.index[s.threads[tid].from], s.threads[tid].payload);
  }

  lemma DataArrives(dst: Bytes, payload: Bytes)
    requires |payload| < U16 && !CarriesMagic(dst)
    ensures !IsStun(EncodeControl(DATA, dst, payload))
    ensures DecodeControl(EncodeControl(DATA, dst, payload)) == Control(DATA, VipOnWire(dst), payload)
  {
    hide EncodeControl, DecodeControl, VipOnWire, CarriesMagic, IsStun;
    ControlIsStunIff(DATA, dst, payload);
    DecodeEncodeControl(DATA, dst, payload);
    assert payload[..|payload| % U16] == payload;
  }

  lemma DataForwarded(k: Bytes, payload: Bytes)
    requires (|k| == 4 || |k| == 16) && Key(k) == k && |payload| < U16
    ensures To16(k) != [] && Callback(EncodeControl(DATA, To16(k), payload)) == Some((k, payload))
  {
    hide EncodeControl, DecodeControl, VipOnWire, Key, To16;
    ParsedKey(k);
    DecodeEncodeControl(DATA, To16(k), payload);
    assert payload[..|payload| % U16] == payload;
  }

  lemma TablesAreGood(server: Addr, h: History, s: System, k: Bytes, a: Addr)
    requires Inv(server, h, s) && k in s.t.peers && a in s.t.index
    ensures s.t.peers[k].addr != server && (|s.t.index[a]| == 4 || |s.t.index[a]| == 16) && Key(s.t.index[a]) == s.t.index[a]
  {
    hide GoodNet, GoodThread, Key, IsUnspecified;
    assert GoodEntry(server, k, s.t.peers[k].addr) by { assert (k, s.t.peers[k].addr) in h.entered; }
    assert GoodEntry(server, s.t.index[a], a) by { assert (s.t.index[a], a) in h.entered; }
  }

  lemma IndexIsValid(server: Addr, h: History, s: System)
    requires Inv(server, h, s)
    ensures ValidIndex(s.t)
  {
    hide GoodNet, GoodThread, Key, IsUnspecified;
    forall a | a in s.t.index ensures (|s.t.index[a]| == 4 || |s.t.index[a]| == 16) && Key(s.t.index[a]) == s.t.index[a] {
      assert GoodEntry(server, s.t.index[a], a) by { assert (s.t.index[a], a) in h.entered; }
    }
  }

  /** While the pool has an address, a client that names none can register: it is entered under an
      unused pool address, seen now, with its host name, and is sent an ack that gives it that
      address. */
  lemma RegistrationGoesThrough(base: Bytes, server: Addr, s: System, a: Addr, hostname: Bytes, list: Bytes)
    returns (vip: Bytes, steps: seq<Step>, s': System, ack: Datagram)
    requires ValidBase(base) && a != server && |hostname| < 65536 && !(PoolKeys(base) <= s.t.used)
    ensures Goes(base, server, s, steps, s') && s.net <= s'.net && s'.threads == s.threads && s'.now == s.now
    ensures Key(vip) in PoolKeys(base) && Key(vip) !in s.t.used && |vip| == |base|
    ensures s'.t == Tables(s.t.used + {Key(vip)}, s.t.peers[Key(vip) := Lease(vip, a, s.now, [], hostname)], s.t.index[a := Key(vip)])
    ensures ack in s'.net && ack.to == a && ReadRegisterAck(ack.data).Value? && Key(ReadRegisterAck(ack.data).value.vip) == Key(vip)
  {
    hide EncodeControl, DecodeControl, Key, VipOnWire, IsStun, Goes, PoolKeys, FirstFree;
    var tid := FreshThread(s.threads.Keys);
    FirstFreeSpec(base, s.t.used);
    vip := FirstFree(base, s.t.used).value;
    NamelessRequest(hostname);
    var d := Datagram(a, server, EncodeControl(REGISTER, [], hostname));
    var recv := RecvRegister(d, tid, vip);
    var s1 := Apply(base, server, s, ClientRegister(a, [], hostname));
    var s2 := Apply(base, server, s1, recv);
    s' := Apply(base, server, s2, Enter(tid, list));
    ack := Datagram(server, a, EncodeControl(REGISTER_ACK, vip, list));
    AckHead(vip, list);
    DecodeEncodeControl(REGISTER_ACK, vip, list);
    KeyShape(vip);
    GoesOne(base, server, s2, Enter(tid, list));
    GoesByStep(base, server, s1, recv, [Enter(tid, list)], s');
    GoesByStep(base, server, s, ClientRegister(a, [], hostname), [recv] + [Enter(tid, list)], s');
    steps := [ClientRegister(a, [], hostname)] + ([recv] + [Enter(tid, list)]);
  }

  lemma NamelessRequest(hostname: Bytes)
    requires |hostname| < U16
    ensures !IsStun(EncodeControl(REGISTER, [], hostname))
    ensures DecodeControl(EncodeControl(REGISTER, [], hostname)) == Control(1, Zeros(16), hostname) && IsUnspecified(Zeros(16))
  {
    hide EncodeControl, DecodeControl, IsStun;
    ControlIsStunIff(REGISTER, [], hostname);
    DecodeEncodeControl(REGISTER, [], hostname);
    assert hostname[..|hostname| % U16] == hostname;
    IsUnspecifiedIff(Zeros(16));
    assert Zeros(16) == [0, 0, 0, 0, 0, 0, 0, 0, 0, 0, 0, 0, 0, 0, 0, 0];
  }

  /** A binding request is answered to where it came from, and touches no table. */
  lemma BindingGoesThrough(base: Bytes, server: Addr, s: System, a: Addr, request: Bytes, reply: Bytes) returns (s': System)
    requires ValidBase(base) && a != server && IsStun(request) && [0x00, 0x01] <= request && [0x01, 0x01] <= reply
    ensures Goes(base, server, s, [ClientBind(a, request), AnswerStun(Datagram(a, server, request), reply)], s')
    ensures Datagram(server, a, reply) in s'.net && s'.t == s.t && s'.threads == s.threads
  {
    hide IsStun, Goes;
    var bind, answer := ClientBind(a, request), AnswerStun(Datagram(a, server, request), reply);
    var s1 := Apply(base, server, s, bind);
    s' := Apply(base, server, s1, answer);
    GoesOne(base, server, s1, answer);
    GoesByStep(base, server, s, bind, [answer], s');
    assert [bind] + [answer] == [bind, answer];
  }

  /** A client can always be sent a list: a message of that kind, to where it registered from. */
  lemma BroadcastGoesThrough(base: Bytes, server: Addr, s: System, k: Bytes, list: Bytes) returns (d: Datagram)
    requires ValidBase(base) && k in s.t.peers && |list| < 65536
    ensures Enabled(base, server, s, Broadcast(k, list)) && Apply(base, server, s, Broadcast(k, list)) == s.(net := s.net + {d})
    ensures d.from == server && d.to == s.t.peers[k].addr
    ensures DecodeControl(d.data) == Control(3, VipOnWire(s.t.peers[k].vip), list)
  {
    hide EncodeControl, DecodeControl, VipOnWire;
    d := Datagram(server, s.t.peers[k].addr, EncodeControl(PEER_LIST, s.t.peers[k].vip, list));
    DecodeEncodeControl(PEER_LIST, s.t.peers[k].vip, list);
    assert list[..|list| % U16] == list;
  }

  /** At any later moment the server can sweep, and then exactly the clients not seen for more than
      five minutes are gone, and exactly their real addresses from the index. */
  lemma SweepGoesThrough(base: Bytes, server: Addr, s: System, later: nat) returns (s': System)
    requires ValidBase(base) && s.now <= later
    ensures Goes(base, server, s, [Tick(later), Sweep], s') && s'.now == later && s'.net == s.net && s'.threads == s.threads
    ensures s'.t.peers == map k | k in s.t.peers && later - s.t.peers[k].lastSeen <= 300_000_000_000 :: s.t.peers[k]
    ensures forall a :: a in s'.t.index <==> (
              && a in s.t.index
              && forall k | k in s.t.peers && later - s.t.peers[k].lastSeen > 300_000_000_000 :: s.t.peers[k].addr != a)
  {
    hide Goes;
    var ticked := Apply(base, server, s, Tick(later));
    s' := Apply(base, server, ticked, Sweep);
    GoesOne(base, server, ticked, Sweep);
    GoesByStep(base, server, s, Tick(later), [Sweep], s');
    assert [Tick(later)] + [Sweep] == [Tick(later), Sweep];
  }

  // ---- the steps and the methods -----------------------------------------

  /** handleRegister's two steps, run alone, do what the method's contract says. */
  lemma RegisterStepsAreHandleRegister(base: Bytes, server: Addr, s: System, d: Datagram, tid: nat, vip: Bytes, order: seq<Bytes>)
    requires ValidBase(base) && Enabled(base, server, s, RecvRegister(d, tid, vip)) && Order(order, s.t.peers.Keys + {Key(vip)})
    ensures
      var received := Apply(base, server, s, RecvRegister(d, tid, vip));
      var peers := received.t.peers[Key(vip) := Lease(vip, d.from, s.now, [], DecodeControl(d.data).payload)];
      (forall k <- order :: k in peers) &&
      var list := N2nProtocol.EncodePeers(Listing(peers, order));
      Enabled(base, server, received, Enter(tid, list)) &&
      var entered := Apply(base, server, received, Enter(tid, list));
      var msg := EncodeControl(REGISTER_ACK, vip, list);
      && RegisterOutcome(base, s.t, entered.t, DecodeControl(d.data).payload, DecodeControl(d.data).vip, d.from, s.now, Acks(msg, vip))
      && entered.net == s.net + {Datagram(server, d.from, msg)} && entered.threads == s.threads
  {
    hide EncodeControl, DecodeControl, Key, FirstFree, IsUnspecified, IsStun, N2nProtocol.EncodePeers, Listing;
    var received := Apply(base, server, s, RecvRegister(d, tid, vip));
    var peers := received.t.peers[Key(vip) := Lease(vip, d.from, s.now, [], DecodeControl(d.data).payload)];
    assert Order(order, peers.Keys) by { assert peers.Keys == s.t.peers.Keys + {Key(vip)}; }
    var entered := Apply(base, server, received, Enter(tid, N2nProtocol.EncodePeers(Listing(peers, order))));
    assert entered.t.peers == peers;
  }

  /** And so do those of handleRelayData, for a known destination. */
  lemma RelayStepsAreHandleRelayData(base: Bytes, server: Addr, s: System, d: Datagram, tid: nat)
    requires ValidBase(base) && Enabled(base, server, s, RecvData(d, tid))
    ensures
      var msg, received := DecodeControl(d.data), Apply(base, server, s, RecvData(d, tid));
      Enabled(base, server, received, Forward(tid)) &&
      var forwarded := Apply(base, server, received, Forward(tid));
      && forwarded.t == s.t && forwarded.threads == s.threads
      && forwarded.net == match Relayed(s.t, msg.vip, msg.payload, d.from)
                          case None => s.net
                          case Some(out) => s.net + {Datagram(server, out.0, out.1)}
  {
    hide EncodeControl, DecodeControl, Key, IsStun, To16;
  }
}
