/** The WinDivert connection table: flows found by client key and by the fake loopback port
    each was given, a wrapping port allocator, and idle eviction. Nat and the functions on it
    say what each critical section does; the class is the code, with its shared flow objects. */
module WinTProxy {
  import opened Bytes
  import opened Options

  type u16 = x: int | 0 <= x < 0x1_0000
  type u32 = x: int | 0 <= x < 0x1_0000_0000
  type Ip16 = b: seq<byte> | |b| == 16 witness seq(16, _ => 0)

  const FAKE_SRC_BASE := 40000
  const FAKE_SRC_SPAN := 20000
  const FAKE_SRC_END := FAKE_SRC_BASE + FAKE_SRC_SPAN

  /** tproxyIdle, in nanoseconds. */
  const IDLE := 600_000_000_000

  const LOOPBACK_V4: u32 := 0x0100007F

  // ---- byte order and keys -----------------------------------------------

  function V4To16(w: u32): Ip16 {
    seq(12, _ => 0) + [w / 0x100_0000, w / 0x1_0000 % 256, w / 256 % 256, w % 256]
  }

  /** The 32-bit image of the address a.b.c.d as LOOPBACK_V4 writes 127.0.0.1: first octet in
      the low byte. */
  function Image(a: byte, b: byte, c: byte, d: byte): u32 {
    a + 256 * b + 0x1_0000 * c + 0x100_0000 * d
  }

  /** Accept reads the address back from bytes 12..15, that is, reversed. What it returns is
      the address on the wire exactly when that reads the same from both ends. */
  lemma AcceptedAddress(a: byte, b: byte, c: byte, d: byte)
    ensures V4To16(Image(a, b, c, d))[12..] == [d, c, b, a]
    ensures V4To16(Image(a, b, c, d))[12..] == [a, b, c, d] <==> a == d && b == c
    ensures Image(127, 0, 0, 1) == LOOPBACK_V4
  {
    var w := Image(a, b, c, d);
    Shift24(d, c * 0x1_0000 + b * 256 + a);
    Shift16(c + 256 * d, b * 256 + a);
    Shift8(b + 256 * c + 0x1_0000 * d, a);
    Shift8(d, c);
    Shift8(c + 256 * d, b);
  }

  lemma Shift24(q: nat, r: nat)
    requires r < 0x100_0000
    ensures (r + q * 0x100_0000) / 0x100_0000 == q
  {
  }

  lemma Shift16(q: nat, r: nat)
    requires r < 0x1_0000
    ensures (r + q * 0x1_0000) / 0x1_0000 == q
  {
  }

  lemma Shift8(q: nat, r: nat)
    requires r < 256
    ensures (r + q * 256) / 256 == q && (r + q * 256) % 256 == r
  {
  }

  /** flowKey: a tag, the family, the address, and one byte of the port. */
  function FlowKey(proto: byte, ip: Ip16, port: u16): Bytes {
    [0x76, proto] + ip + [port % 256]
  }

  /** Two endpoints share a key exactly when family and address agree and the ports agree
      modulo 256. */
  lemma FlowKeyCollides(proto: byte, ip: Ip16, port: u16, proto': byte, ip': Ip16, port': u16)
    ensures FlowKey(proto, ip, port) == FlowKey(proto', ip', port') <==>
            proto == proto' && ip == ip' && port % 256 == port' % 256
  {
    var k, k' := FlowKey(proto, ip, port), FlowKey(proto', ip', port');
    assert k[0..2] == [0x76, proto] && k[2..18] == ip && k[18] == port % 256;
    assert k'[0..2] == [0x76, proto'] && k'[2..18] == ip' && k'[18] == port' % 256;
    assert k[0..2][1] == proto && k'[0..2][1] == proto';
  }

  // ---- the table as a value ----------------------------------------------

  datatype Endpoints = Endpoints(proto: byte, clientIP: Ip16, clientP: u16, origDstIP: Ip16, origDstP: u16)

  datatype Flow = Flow(ends: Endpoints, fakeP: u16, last: nat)

  datatype Nat = Nat(flows: map<Bytes, Flow>, fake: map<u16, Flow>, next: u16)

  const EMPTY := Nat(map[], map[], FAKE_SRC_BASE)

  function KeyOf(e: Endpoints): Bytes {
    FlowKey(e.proto, e.clientIP, e.clientP)
  }

  predicate FakePort(p: int) {
    FAKE_SRC_BASE <= p < FAKE_SRC_END
  }

  /** byReal and byFake are inverse to each other. */
  ghost predicate Inverse(n: Nat) {
    && (forall k | k in n.flows :: FakePort(n.flows[k].fakeP) && n.flows[k].fakeP in n.fake && n.fake[n.flows[k].fakeP] == n.flows[k]
                                  && KeyOf(n.flows[k].ends) == k)
    && (forall p | p in n.fake :: n.fake[p].fakeP == p && KeyOf(n.fake[p].ends) in n.flows && n.flows[KeyOf(n.fake[p].ends)] == n.fake[p])
  }

  ghost predicate Inv(n: Nat) {
    FakePort(n.next) && Inverse(n)
  }

  function Wrap(p: u16): u16
    requires FakePort(p)
  {
    if p + 1 >= FAKE_SRC_END then FAKE_SRC_BASE else p + 1
  }

  /** The i-th port from p, going round. */
  function Nth(p: u16, i: nat): (q: u16)
    requires FakePort(p)
    ensures FakePort(q)
  {
    FAKE_SRC_BASE + (p - FAKE_SRC_BASE + i) % FAKE_SRC_SPAN
  }

  /** How many ports from p on are taken before a free one, among the next `left`. */
  function Skip(taken: set<u16>, p: u16, left: nat): (i: nat)
    requires FakePort(p)
    ensures i <= left
    decreases left
  {
    if left == 0 || p !in taken then 0 else 1 + Skip(taken, Wrap(p), left - 1)
  }

  /** The port handed out and the cursor left behind. */
  function Alloc(taken: set<u16>, next: u16): (Option<u16>, u16)
    requires FakePort(next)
  {
    var i := Skip(taken, next, FAKE_SRC_SPAN);
    if i == FAKE_SRC_SPAN then (None, next) else (Some(Nth(next, i)), Nth(next, i + 1))
  }

  lemma NthStep(p: u16, i: nat)
    requires FakePort(p)
    ensures Nth(Wrap(p), i) == Nth(p, i + 1) && Wrap(Nth(p, i)) == Nth(p, i + 1)
  {
    ModStep(p - FAKE_SRC_BASE, i);
  }

  lemma NthAround(p: u16)
    requires FakePort(p)
    ensures Nth(p, 0) == p && Nth(p, FAKE_SRC_SPAN) == p
  {
    DivMod(p - FAKE_SRC_BASE + FAKE_SRC_SPAN, 1, p - FAKE_SRC_BASE);
  }

  lemma SkipStep(taken: set<u16>, p: u16, left: nat)
    requires FakePort(p)
    ensures Skip(taken, p, left) == if left == 0 || p !in taken then 0 else 1 + Skip(taken, Wrap(p), left - 1)
  {
  }

  lemma ModStep(a: nat, i: nat)
    requires a < FAKE_SRC_SPAN
    ensures
      var n := FAKE_SRC_SPAN;
      && (if a + 1 == n then i % n == (a + i + 1) % n else true)
      && (if (a + i) % n + 1 == n then (a + i + 1) % n == 0 else (a + i + 1) % n == (a + i) % n + 1)
  {
    var n := FAKE_SRC_SPAN;
    var q, r := (a + i) / n, (a + i) % n;
    assert a + i == q * n + r;
    if r + 1 == n {
      DivMod(a + i + 1, q + 1, 0);
    } else {
      DivMod(a + i + 1, q, r + 1);
    }
    if a + 1 == n {
      var q', r' := i / n, i % n;
      assert i == q' * n + r';
      DivMod(a + i + 1, q' + 1, r');
    }
  }

  lemma DivMod(x: nat, q: nat, r: nat)
    requires x == q * FAKE_SRC_SPAN + r && r < FAKE_SRC_SPAN
    ensures x % FAKE_SRC_SPAN == r
  {
  }

  lemma {:induction false} SkipSpec(taken: set<u16>, p: u16, left: nat)
    requires FakePort(p)
    ensures forall i :: 0 <= i < Skip(taken, p, left) ==> Nth(p, i) in taken
    ensures Skip(taken, p, left) < left ==> Nth(p, Skip(taken, p, left)) !in taken
    decreases left
  {
    assert Nth(p, 0) == p;
    if left > 0 && p in taken {
      SkipSpec(taken, Wrap(p), left - 1);
      forall i: nat ensures Nth(Wrap(p), i) == Nth(p, i + 1) { NthStep(p, i); }
      forall i | 0 <= i < Skip(taken, p, left) ensures Nth(p, i) in taken {
        if i > 0 { assert Nth(p, i) == Nth(Wrap(p), i - 1); }
      }
    }
  }

  /** allocFakeLocked hands out the first free port going round from the cursor and leaves the
      cursor just past it; it fails, cursor unmoved, exactly when every port is taken. */
  lemma AllocSpec(taken: set<u16>, next: u16)
    requires FakePort(next)
    ensures
      var (port, after) := Alloc(taken, next);
      && FakePort(after)
      && (port.None? <==> forall p: u16 :: FakePort(p) ==> p in taken)
      && (port.None? ==> after == next)
      && (port.Some? ==>
            && FakePort(port.value) && port.value !in taken && after == Wrap(port.value)
            && exists i: nat :: i < FAKE_SRC_SPAN && port.value == Nth(next, i) && forall j :: 0 <= j < i ==> Nth(next, j) in taken)
  {
    var i := Skip(taken, next, FAKE_SRC_SPAN);
    SkipSpec(taken, next, FAKE_SRC_SPAN);
    if i == FAKE_SRC_SPAN {
      forall p: u16 | FakePort(p) ensures p in taken {
        var j := if p >= next then p - next else p - next + FAKE_SRC_SPAN;
        assert Nth(next, j) == p;
      }
    } else {
      NthStep(next, i);
    }
  }

  function Touch(n: Nat, k: Bytes, now: nat): Nat
    requires k in n.flows
  {
    var f := n.flows[k].(last := now);
    n.(flows := n.flows[k := f], fake := n.fake[f.fakeP := f])
  }

  predicate Idle(f: Flow, now: int) {
    now - f.last > IDLE
  }

  /** gcLocked. The timer's `now` may be older than some refreshes. */
  function Gc(n: Nat, now: int): Nat {
    var gone := set k | k in n.flows && Idle(n.flows[k], now);
    n.(flows := n.flows - gone, fake := n.fake - (set k | k in gone :: n.flows[k].fakeP))
  }

  /** Opening a flow for an untracked key; false when the pool is exhausted. */
  function Open(n: Nat, e: Endpoints, now: nat): (Nat, bool)
    requires FakePort(n.next)
  {
    var (port, after) := Alloc(n.fake.Keys, n.next);
    match port
    case None => (Gc(n, now).(next := after), false)
    case Some(p) =>
      var f := Flow(e, p, now);
      (Nat(n.flows[KeyOf(e) := f], n.fake[p := f], after), true)
  }

  datatype Verdict = Passed | Dropped | Rewritten(srcPort: u16) | Resent

  /** rewrite's critical section, and the port it settles on. */
  function Tcp(n: Nat, e: Endpoints, syn: bool, ack: bool, now: nat): (Nat, Verdict)
    requires FakePort(n.next)
  {
    if KeyOf(e) in n.flows then (Touch(n, KeyOf(e), now), Rewritten(n.flows[KeyOf(e)].fakeP))
    else if !syn || ack then (n, Passed)
    else
      var (n', ok) := Open(n, e, now);
      if ok && KeyOf(e) in n'.flows then (n', Rewritten(n'.flows[KeyOf(e)].fakeP)) else (n', Dropped)
  }

  /** The packet already goes from loopback to the listener on loopback. */
  predicate Looped(listen: u16, e: Endpoints) {
    e.clientIP == V4To16(LOOPBACK_V4) && e.origDstIP == V4To16(LOOPBACK_V4) && e.origDstP == listen
  }

  /** What rewrite does with the packet after its critical section. */
  function Emitted(listen: u16, e: Endpoints, decided: Verdict): Verdict {
    if decided.Rewritten? && Looped(listen, e) then Resent else decided
  }

  /** The critical sections of rewriteUDP and captureOnlyV6. */
  function Capture(n: Nat, e: Endpoints, now: nat): Nat
    requires FakePort(n.next)
  {
    if KeyOf(e) in n.flows then Touch(n, KeyOf(e), now) else Open(n, e, now).0
  }

  /** lookupFake. */
  function Lookup(n: Nat, p: u16): Option<Endpoints> {
    if p in n.fake then Some(n.fake[p].ends) else None
  }

  lemma TouchKeepsInv(n: Nat, k: Bytes, now: nat)
    requires Inv(n) && k in n.flows
    ensures Inv(Touch(n, k, now))
  {
  }

  lemma GcKeepsInv(n: Nat, now: int)
    requires Inv(n)
    ensures Inv(Gc(n, now))
    ensures Gc(n, now).fake == (map p | p in n.fake && !Idle(n.fake[p], now) :: n.fake[p])
  {
  }

  lemma OpenByAlloc(n: Nat, e: Endpoints, now: nat)
    requires FakePort(n.next)
    ensures
      var (port, after) := Alloc(n.fake.Keys, n.next);
      && (port.None? ==> Open(n, e, now) == (Gc(n, now).(next := after), false))
      && (port.Some? ==>
            var f := Flow(e, port.value, now);
            Open(n, e, now) == (Nat(n.flows[KeyOf(e) := f], n.fake[port.value := f], after), true))
  {
  }

  lemma OpenKeepsInv(n: Nat, e: Endpoints, now: nat)
    requires Inv(n) && KeyOf(e) !in n.flows
    ensures Inv(Open(n, e, now).0)
    ensures
      var (n', ok) := Open(n, e, now);
      (ok <==> exists p: u16 :: FakePort(p) && p !in n.fake)
      && (ok ==> KeyOf(e) in n'.flows && n'.flows[KeyOf(e)].ends == e && n'.flows[KeyOf(e)].fakeP !in n.fake
                 && n'.flows - {KeyOf(e)} == n.flows)
  {
    hide Alloc, FlowKey;
    AllocSpec(n.fake.Keys, n.next);
    GcKeepsInv(n, now);
    var (port, after) := Alloc(n.fake.Keys, n.next);
    if port.Some? {
      assert FakePort(port.value) && port.value !in n.fake;
      assert Open(n, e, now).0.flows - {KeyOf(e)} == n.flows;
    }
  }

  // ---- runs --------------------------------------------------------------

  datatype Event =
    | TcpPacket(ends: Endpoints, syn: bool, ack: bool, now: nat)
    | CapturedPacket(ends: Endpoints, now: nat)
    | Collect(at: int)

  function Next(n: Nat, e: Event): Nat
    requires FakePort(n.next)
  {
    match e
    case TcpPacket(ends, syn, ack, now) => Tcp(n, ends, syn, ack, now).0
    case CapturedPacket(ends, now) => Capture(n, ends, now)
    case Collect(at) => Gc(n, at)
  }

  lemma NextKeepsInv(n: Nat, e: Event)
    requires Inv(n)
    ensures Inv(Next(n, e))
  {
    hide Alloc, FlowKey, Inverse, Touch, Gc, Open;
    match e
    case TcpPacket(ends, syn, ack, now) =>
      if KeyOf(ends) in n.flows { TouchKeepsInv(n, KeyOf(ends), now); } else { OpenKeepsInv(n, ends, now); }
    case CapturedPacket(ends, now) =>
      if KeyOf(ends) in n.flows { TouchKeepsInv(n, KeyOf(ends), now); } else { OpenKeepsInv(n, ends, now); }
    case Collect(at) => GcKeepsInv(n, at);
  }

  /** The table after a sequence of events. */
  ghost function After(n: Nat, events: seq<Event>): (n': Nat)
    requires Inv(n)
    ensures Inv(n')
    decreases |events|
  {
    if events == [] then n
    else
      NextKeepsInv(n, events[0]);
      After(Next(n, events[0]), events[1..])
  }

  /** In every run from the empty table the two maps are inverse, so each live key has its own
      port, and there are never more than 20000 flows. */
  lemma ReachableTable(events: seq<Event>)
    ensures
      var n := After(EMPTY, events);
      && Inverse(n) && |n.flows| == |n.fake| <= FAKE_SRC_SPAN
      && forall j, k | j in n.flows && k in n.flows && j != k :: n.flows[j].fakeP != n.flows[k].fakeP
  {
    var n := After(EMPTY, events);
    var portOf := map k | k in n.flows :: n.flows[k].fakeP;
    InjectiveImage(n.flows.Keys, portOf);
    assert (set k | k in n.flows.Keys :: portOf[k]) == n.fake.Keys by { PortsAreFlows(n, portOf); }
    PortsInRange(n.fake.Keys, FAKE_SRC_END);
  }

  lemma PortsAreFlows(n: Nat, portOf: map<Bytes, u16>)
    requires Inverse(n) && portOf == map k | k in n.flows :: n.flows[k].fakeP
    ensures (set k | k in n.flows.Keys :: portOf[k]) == n.fake.Keys
  {
    hide KeyOf;
    forall p | p in n.fake ensures p in set k | k in n.flows.Keys :: portOf[k] {
      assert portOf[KeyOf(n.fake[p].ends)] == p;
    }
  }

  lemma {:induction false} InjectiveImage(keys: set<Bytes>, f: map<Bytes, u16>)
    requires keys <= f.Keys && forall j, k | j in keys && k in keys && j != k :: f[j] != f[k]
    ensures |set k | k in keys :: f[k]| == |keys|
    decreases keys
  {
    if keys != {} {
      var k :| k in keys;
      InjectiveImage(keys - {k}, f);
      assert (set j | j in keys :: f[j]) == (set j | j in keys - {k} :: f[j]) + {f[k]};
    }
  }

  lemma {:induction false} PortsInRange(ports: set<u16>, end: nat)
    requires FAKE_SRC_BASE <= end && forall p <- ports :: FAKE_SRC_BASE <= p < end
    ensures |ports| <= end - FAKE_SRC_BASE
    decreases end
  {
    if end == FAKE_SRC_BASE {
      assert ports == {};
    } else {
      PortsInRange(ports - {end - 1}, end - 1);
      assert ports <= (ports - {end - 1}) + {end - 1};
    }
  }

  function Time(e: Event): int {
    if e.Collect? then e.at else e.now
  }

  /** No event, a sweep included, comes more than ten minutes after the last packet of key k;
      `last` is when that was. */
  ghost predicate InTime(k: Bytes, last: nat, events: seq<Event>)
    decreases |events|
  {
    events == [] ||
    (Time(events[0]) - last <= IDLE
     && InTime(k, if !events[0].Collect? && KeyOf(events[0].ends) == k then events[0].now else last, events[1..]))
  }

  lemma NextKeepsFlow(n: Nat, e: Event, k: Bytes)
    requires Inv(n) && k in n.flows && Time(e) - n.flows[k].last <= IDLE
    ensures
      var n' := Next(n, e);
      k in n'.flows && n'.flows[k].ends == n.flows[k].ends && n'.flows[k].fakeP == n.flows[k].fakeP
      && n'.flows[k].last == if !e.Collect? && KeyOf(e.ends) == k then e.now else n.flows[k].last
  {
    hide Alloc, FlowKey;
  }

  /** A tracked flow keeps its recorded endpoints and its port through any events, however
      many other flows and sweeps there are, as long as it is never idle for ten minutes. */
  lemma {:induction false} FlowIsKept(n: Nat, events: seq<Event>, k: Bytes)
    requires Inv(n) && k in n.flows && InTime(k, n.flows[k].last, events)
    ensures
      var n' := After(n, events);
      && k in n'.flows && n'.flows[k].ends == n.flows[k].ends && n'.flows[k].fakeP == n.flows[k].fakeP
      && Lookup(n', n.flows[k].fakeP) == Some(n.flows[k].ends)
    decreases |events|
  {
    hide Next, KeyOf;
    if events != [] {
      NextKeepsFlow(n, events[0], k);
      NextKeepsInv(n, events[0]);
      FlowIsKept(Next(n, events[0]), events[1..], k);
    }
  }

  /** From an untracked SYN on, which is let in when fewer than 20000 ports are taken, every later
      packet of the same key is rewritten to the port the SYN got, unless it is on loopback already,
      and that port looks up the SYN's own endpoints. */
  lemma SynOpensStickyFlow(before: seq<Event>, syn: Endpoints, now: nat, later: seq<Event>,
                           listen: u16, packet: Endpoints, s: bool, a: bool, at: nat)
    requires KeyOf(syn) !in After(EMPTY, before).flows && KeyOf(packet) == KeyOf(syn)
    requires |After(EMPTY, before).fake| < 20000
    requires InTime(KeyOf(syn), now, later)
    ensures
      var admitted := Tcp(After(EMPTY, before), syn, true, false, now);
      Inv(admitted.0) && admitted.1.Rewritten? &&
      var n := After(admitted.0, later);
      && Emitted(listen, packet, Tcp(n, packet, s, a, at).1) == (if Looped(listen, packet) then Resent else admitted.1)
      && Lookup(n, admitted.1.srcPort) == Some(syn)
  {
    hide Alloc, FlowKey, Touch, Gc, KeyOf;
    var n := After(EMPTY, before);
    OpenKeepsInv(n, syn, now);
    UntrackedSyn(n, syn, now);
    NextKeepsInv(n, TcpPacket(syn, true, false, now));
    OpenStamps(n, syn, now);
    FlowIsKept(Tcp(n, syn, true, false, now).0, later, KeyOf(syn));
  }

  lemma OpenStamps(n: Nat, e: Endpoints, now: nat)
    requires Inv(n) && Open(n, e, now).1
    ensures KeyOf(e) in Open(n, e, now).0.flows && Open(n, e, now).0.flows[KeyOf(e)].last == now
  {
    hide Alloc;
  }

  /** The port a packet is rewritten to looks up the packet's own endpoints exactly when no flow
      was tracked under its key or the tracked one recorded those very endpoints. */
  lemma OwnEndpointsIff(n: Nat, e: Endpoints, syn: bool, ack: bool, now: nat)
    requires Inv(n) && Tcp(n, e, syn, ack, now).1.Rewritten?
    ensures
      var (n', verdict) := Tcp(n, e, syn, ack, now);
      Lookup(n', verdict.srcPort) == Some(e) <==> (KeyOf(e) in n.flows ==> n.flows[KeyOf(e)].ends == e)
  {
    hide Alloc, FlowKey, Gc;
    if KeyOf(e) !in n.flows { OpenKeepsInv(n, e, now); }
  }

  /** The recorded endpoints are another's whenever two client ports of one host agree modulo 256:
      the second, within ten minutes, gets the first one's port and is taken for the first. */
  lemma CollidingClientIsMistaken(n: Nat, first: Endpoints, second: Endpoints, now: nat)
    requires Inv(n) && KeyOf(first) in n.flows && n.flows[KeyOf(first)].ends == first
    requires second.proto == first.proto && second.clientIP == first.clientIP
    requires second.clientP % 256 == first.clientP % 256
    ensures
      var (n', verdict) := Tcp(n, second, true, false, now);
      verdict == Rewritten(n.flows[KeyOf(first)].fakeP) && Lookup(n', verdict.srcPort) == Some(first)
  {
    FlowKeyCollides(first.proto, first.clientIP, first.clientP, second.proto, second.clientIP, second.clientP);
  }

  /** A sweep evicts exactly the flows idle for more than ten minutes and frees exactly their
      ports. */
  lemma SweepFreesExactlyIdlePorts(n: Nat, now: int, p: u16)
    requires Inv(n) && p in n.fake
    ensures p in Gc(n, now).fake <==> now - n.fake[p].last <= 600_000_000_000
    ensures KeyOf(n.fake[p].ends) in Gc(n, now).flows <==> now - n.fake[p].last <= 600_000_000_000
    ensures Lookup(Gc(n, now), p) == if now - n.fake[p].last <= 600_000_000_000 then Some(n.fake[p].ends) else None
  {
    GcKeepsInv(n, now);
  }

  // ---- what becomes of each packet ---------------------------------------

  /** A packet of a tracked connection, whatever its flags, goes to the connection's port and
      refreshes it, and does nothing else. */
  lemma TrackedPacketIsRewritten(n: Nat, e: Endpoints, syn: bool, ack: bool, now: nat)
    requires Inv(n) && KeyOf(e) in n.flows
    ensures
      var (n', verdict), f := Tcp(n, e, syn, ack, now), n.flows[KeyOf(e)];
      && verdict == Rewritten(f.fakeP) && 40000 <= f.fakeP < 60000 && n'.next == n.next
      && n'.flows == n.flows[KeyOf(e) := Flow(f.ends, f.fakeP, now)]
      && n'.fake == n.fake[f.fakeP := Flow(f.ends, f.fakeP, now)]
  {
    hide FlowKey;
  }

  /** A packet in the middle of a connection that is not tracked is left alone. */
  lemma UntrackedPacketPasses(n: Nat, e: Endpoints, syn: bool, ack: bool, now: nat)
    requires Inv(n) && KeyOf(e) !in n.flows && (!syn || ack)
    ensures Tcp(n, e, syn, ack, now) == (n, Passed)
  {
    hide FlowKey;
  }

  /** The new table has this flow under a port that was free, and is otherwise as it was. */
  ghost predicate Opened(n: Nat, n': Nat, e: Endpoints, port: u16, now: nat) {
    && 40000 <= port < 60000 && port !in n.fake
    && n'.flows == n.flows[KeyOf(e) := Flow(e, port, now)] && n'.fake == n.fake[port := Flow(e, port, now)]
    && Lookup(n', port) == Some(e)
  }

  /** The new table has lost exactly the flows idle for more than ten minutes. */
  ghost predicate Reaped(n: Nat, n': Nat, now: nat) {
    && n'.next == n.next
    && (forall k :: k in n'.flows <==> k in n.flows && now - n.flows[k].last <= 600_000_000_000)
    && (forall p :: p in n'.fake <==> p in n.fake && now - n.fake[p].last <= 600_000_000_000)
    && (forall k | k in n'.flows :: n'.flows[k] == n.flows[k]) && (forall p | p in n'.fake :: n'.fake[p] == n.fake[p])
  }

  lemma {:induction false} AllPortsTaken(ports: set<u16>, end: nat)
    requires 40000 <= end <= 60000 && forall p <- ports :: 40000 <= p < end
    ensures |ports| == end - 40000 <==> forall p: u16 :: 40000 <= p < end ==> p in ports
    decreases end
  {
    if end == 40000 {
      assert ports == {};
    } else {
      var rest := ports - {end - 1};
      PortsInRange(rest, end - 1);
      AllPortsTaken(rest, end - 1);
      if end - 1 in ports {
        assert |ports| == |rest| + 1;
        assert forall p: u16 :: 40000 <= p < end - 1 ==> (p in rest <==> p in ports);
        if |ports| == end - 40000 {
          forall p: u16 | 40000 <= p < end ensures p in ports { assert p == end - 1 || p in rest; }
        }
      } else {
        assert rest == ports;
        var last: u16 := end - 1;
        assert last !in ports;
      }
    }
  }

  /** A key that is not tracked gets a flow as long as fewer than 20000 ports are taken; at 20000
      the idle flows go instead. */
  lemma UntrackedKey(n: Nat, e: Endpoints, now: nat)
    requires Inv(n) && KeyOf(e) !in n.flows
    ensures |n.fake| <= 20000
    ensures
      var (n', ok) := Open(n, e, now);
      if |n.fake| < 20000 then ok && KeyOf(e) in n'.flows && Opened(n, n', e, n'.flows[KeyOf(e)].fakeP, now)
      else !ok && Reaped(n, n', now)
  {
    hide Alloc, FlowKey, KeyOf, Gc, Opened, Reaped, Open;
    AllocSpec(n.fake.Keys, n.next);
    OpenByAlloc(n, e, now);
    PortsInRange(n.fake.Keys, 60000);
    AllPortsTaken(n.fake.Keys, 60000);
    assert |n.fake.Keys| == |n.fake|;
    var (port, after) := Alloc(n.fake.Keys, n.next);
    if port.Some? { PutsFlow(n, e, port.value, after, now); } else { Reaps(n, now); }
  }

  lemma PutsFlow(n: Nat, e: Endpoints, port: u16, after: u16, now: nat)
    requires FakePort(port) && port !in n.fake
    ensures Opened(n, Nat(n.flows[KeyOf(e) := Flow(e, port, now)], n.fake[port := Flow(e, port, now)], after), e, port, now)
  {
    hide FlowKey;
  }

  lemma Reaps(n: Nat, now: nat)
    requires Inv(n)
    ensures Reaped(n, Gc(n, now).(next := n.next), now)
  {
    hide FlowKey;
    GcKeepsInv(n, now);
  }

  /** The SYN of an untracked connection is let in exactly when fewer than 20000 ports are taken. It
      then goes to a port nobody had, which from now on looks up this SYN's own endpoints; otherwise
      it is dropped, and exactly the flows idle for more than ten minutes go. */
  lemma UntrackedSyn(n: Nat, e: Endpoints, now: nat)
    requires Inv(n) && KeyOf(e) !in n.flows
    ensures
      var (n', verdict) := Tcp(n, e, true, false, now);
      if |n.fake| < 20000 then verdict.Rewritten? && Opened(n, n', e, verdict.srcPort, now)
      else verdict == Dropped && Reaped(n, n', now)
  {
    hide Open, FlowKey, Opened, Reaped;
    UntrackedKey(n, e, now);
  }

  /** The first port ever given out is 40000. */
  lemma FirstPort(e: Endpoints, now: nat)
    ensures Tcp(EMPTY, e, true, false, now).1 == Rewritten(40000)
  {
    hide FlowKey, Skip;
    SkipStep({}, 40000, 20000);
    assert EMPTY.fake.Keys == {};
    assert Nth(40000, 0) == 40000;
  }

  /** A dropped SYN that comes again before anything else is let in if and only if some flow had been
      idle for more than ten minutes. */
  lemma RetriedSynIff(n: Nat, e: Endpoints, now: nat, again: nat)
    requires Inv(n) && KeyOf(e) !in n.flows && |n.fake| == 20000
    ensures
      var n' := Tcp(n, e, true, false, now).0;
      Inv(n') &&
      (Tcp(n', e, true, false, again).1.Rewritten? <==> exists p :: p in n.fake && now - n.fake[p].last > 600_000_000_000)
  {
    hide Open, FlowKey, Opened, Tcp;
    var n' := Tcp(n, e, true, false, now).0;
    NextKeepsInv(n, TcpPacket(e, true, false, now));
    assert n' == Next(n, TcpPacket(e, true, false, now));
    UntrackedSyn(n, e, now);
    UntrackedSyn(n', e, again);
    FewerPortsIff(n, n', now);
  }

  lemma SmallerIff(a: set<u16>, b: set<u16>)
    requires a <= b
    ensures |a| < |b| <==> exists p :: p in b && p !in a
  {
    assert b == a + (b - a);
    if p :| p in b && p !in a {
      assert p in b - a;
    } else {
      assert b - a == {};
    }
  }

  lemma FewerPortsIff(n: Nat, n': Nat, now: nat)
    requires Reaped(n, n', now)
    ensures |n'.fake| < |n.fake| <==> exists p :: p in n.fake && now - n.fake[p].last > 600_000_000_000
  {
    hide Reaped;
    assert |n'.fake| == |n'.fake.Keys| && |n.fake| == |n.fake.Keys|;
    assert forall p :: p in n'.fake.Keys <==> p in n.fake.Keys && now - n.fake[p].last <= 600_000_000_000 by { ReapedPorts(n, n', now); }
    SmallerIff(n'.fake.Keys, n.fake.Keys);
  }

  lemma ReapedPorts(n: Nat, n': Nat, now: nat)
    requires Reaped(n, n', now)
    ensures forall p :: p in n'.fake.Keys <==> p in n.fake.Keys && now - n.fake[p].last <= 600_000_000_000
  {
  }

  /** A packet that is not stopped or passed by the table goes out with the port it got, unless it is
      on its way from 127.0.0.1 to the listener on 127.0.0.1 already. */
  lemma EmittedIs(listen: u16, e: Endpoints, port: u16)
    ensures
      var loopback: Bytes := [0, 0, 0, 0, 0, 0, 0, 0, 0, 0, 0, 0, 1, 0, 0, 127];
      Emitted(listen, e, Rewritten(port))
        == if e.clientIP == loopback && e.origDstIP == loopback && e.origDstP == listen then Resent else Rewritten(port)
    ensures Emitted(listen, e, Passed) == Passed && Emitted(listen, e, Dropped) == Dropped
  {
    assert V4To16(LOOPBACK_V4) == [0, 0, 0, 0, 0, 0, 0, 0, 0, 0, 0, 0, 1, 0, 0, 127];
  }

  /** A captured datagram, of UDP or of IPv6, opens a flow as a SYN does or refreshes the one there
      is. */
  lemma CapturedDatagram(n: Nat, e: Endpoints, now: nat)
    requires Inv(n)
    ensures
      var n' := Capture(n, e, now);
      if KeyOf(e) in n.flows then n' == Tcp(n, e, false, true, now).0 && n'.flows.Keys == n.flows.Keys
      else if |n.fake| < 20000 then KeyOf(e) in n'.flows && Opened(n, n', e, n'.flows[KeyOf(e)].fakeP, now)
      else Reaped(n, n', now)
  {
    hide Open, FlowKey, Opened, Reaped;
    if KeyOf(e) !in n.flows { UntrackedKey(n, e, now); }
  }

  // ---- the code ----------------------------------------------------------

  /** winFlow: one object, reachable from both maps. */
  class WinFlow {
    const ends: Endpoints
    var fakeP: u16
    var last: nat

    constructor (ends: Endpoints)
      ensures this.ends == ends
    {
      this.ends := ends;
      fakeP, last := 0, 0;
    }

    ghost function Value(): Flow
      reads this
    {
      Flow(ends, fakeP, last)
    }
  }

  class WinTProxyState {
    var byReal: map<Bytes, WinFlow>
    var byFake: map<u16, WinFlow>
    var nextFake: u16

    ghost predicate Valid()
      reads this, byReal.Values, byFake.Values
    {
      FakePort(nextFake) && Paired(byReal, byFake)
    }

    ghost function State(): Nat
      reads this, byReal.Values, byFake.Values
    {
      Nat(Flows(byReal), Fakes(byFake), nextFake)
    }

    constructor ()
      ensures Valid() && State() == EMPTY
    {
      byReal, byFake, nextFake := map[], map[], FAKE_SRC_BASE;
    }

    method AllocFakeLocked() returns (port: Option<u16>)
      requires FakePort(nextFake)
      modifies this`nextFake
      ensures (port, nextFake) == Alloc(byFake.Keys, old(nextFake))
    {
      hide Nth, Skip;
      ghost var start := nextFake;
      NthAround(start);
      for i := 0 to FAKE_SRC_SPAN
        invariant FakePort(nextFake) && nextFake == Nth(start, i)
        invariant Skip(byFake.Keys, start, FAKE_SRC_SPAN) == i + Skip(byFake.Keys, nextFake, FAKE_SRC_SPAN - i)
      {
        var p := nextFake;
        NthStep(start, i);
        SkipStep(byFake.Keys, p, FAKE_SRC_SPAN - i);
        nextFake := nextFake + 1;
        if nextFake >= FAKE_SRC_END { nextFake := FAKE_SRC_BASE; }
        if p !in byFake { return Some(p); }
      }
      SkipStep(byFake.Keys, nextFake, 0);
      return None;
    }

    /** gcLocked: visits the flows in map order. */
    method GcLocked(now: int)
      requires Valid()
      modifies this`byReal, this`byFake
      ensures Valid() && State() == Gc(old(State()), now)
      ensures byReal.Values <= old(byReal.Values)
    {
      hide Paired, Flows, Fakes, Gc, PortsOf;
      ghost var r, f0 := byReal, byFake;
      ghost var gone: set<Bytes> := {};
      var todo := byReal.Keys;
      NothingGone(r, f0);
      while todo != {}
        invariant todo <= r.Keys && gone == set k | k in r && k !in todo && now - r[k].last > IDLE
        invariant byReal == r - gone && byFake == f0 - PortsOf(r, gone)
      {
        var k :| k in todo;
        assert k in r - gone;
        var f := byReal[k];
        if now - f.last > IDLE {
          byReal := byReal - {k};
          byFake := byFake - {f.fakeP};
          OneMoreGone(r, f0, gone, k);
          gone := gone + {k};
        }
        todo := todo - {k};
      }
      RestrictPairs(r, f0, gone);
      GoneIsGc(r, f0, nextFake, now, gone);
    }

    /** A flow that got a port enters both maps. */
    method InsertFlow(f: WinFlow, port: u16, now: nat)
      requires Valid() && KeyOf(f.ends) !in byReal && FakePort(port) && port !in byFake
      requires f !in byReal.Values && f !in byFake.Values
      modifies this`byReal, this`byFake, f
      ensures Valid() && byReal == old(byReal)[KeyOf(f.ends) := f] && nextFake == old(nextFake)
      ensures State() == Nat(old(State()).flows[KeyOf(f.ends) := Flow(f.ends, port, now)],
                             old(State()).fake[port := Flow(f.ends, port, now)], nextFake)
    {
      hide KeyOf, Paired, Flows, Fakes;
      f.fakeP, f.last := port, now;
      ExtendPairs(byReal, byFake, KeyOf(f.ends), f);
      byReal := byReal[KeyOf(f.ends) := f];
      byFake := byFake[port := f];
    }

    /** The insertion or eviction that follows an allocation attempt. */
    method OpenFlow(ends: Endpoints, now: nat) returns (f: WinFlow, ok: bool)
      requires Valid() && KeyOf(ends) !in byReal
      modifies this
      ensures Valid() && fresh(f)
      ensures (State(), ok) == Open(old(State()), ends, now)
      ensures ok ==> KeyOf(ends) in byReal && byReal[KeyOf(ends)] == f
      ensures forall g <- byReal.Values :: g in old(byReal.Values) || g == f
    {
      hide Alloc, Gc, KeyOf, Paired, Flows, Fakes, Open;
      OpenByAlloc(State(), ends, now);
      FakeKeys(byFake);
      f := new WinFlow(ends);
      AllocSpec(byFake.Keys, nextFake);
      var port := AllocFakeLocked();
      if port.None? {
        GcLocked(now);
        return f, false;
      }
      InsertFlow(f, port.value, now);
      ok := true;
    }

    /** f.last = now, seen through both maps at once. */
    method Refresh(key: Bytes, now: nat) returns (fakeP: u16)
      requires Valid() && key in byReal
      modifies byReal[key]
      ensures Valid() && State() == Touch(old(State()), key, now)
      ensures fakeP == old(State()).flows[key].fakeP
    {
      hide KeyOf;
      ghost var before := State();
      var f := byReal[key];
      assert byFake[f.fakeP] == f;
      f.last := now;
      fakeP := f.fakeP;
      assert State().flows == before.flows[key := f.Value()];
      assert State().fake == before.fake[f.fakeP := f.Value()];
    }

    /** rewrite: the critical section, and what becomes of the packet. */
    method Rewrite(listen: u16, ends: Endpoints, syn: bool, ack: bool, now: nat) returns (verdict: Verdict)
      requires Valid()
      modifies this, byReal.Values
      ensures Valid()
      ensures
        var (after, decided) := Tcp(old(State()), ends, syn, ack, now);
        State() == after && verdict == Emitted(listen, ends, decided)
    {
      hide FlowKey, Touch, Open, V4To16;
      var key := KeyOf(ends);
      var fakeSrc: u16;
      if key in byReal {
        fakeSrc := Refresh(key, now);
      } else {
        if !syn || ack { return Passed; }
        var f, ok := OpenFlow(ends, now);
        if !ok { return Dropped; }
        fakeSrc := f.fakeP;
      }
      if ends.clientIP == V4To16(LOOPBACK_V4) && ends.origDstIP == V4To16(LOOPBACK_V4) && ends.origDstP == listen {
        return Resent;
      }
      return Rewritten(fakeSrc);
    }

    /** rewriteUDP and captureOnlyV6: the packet itself goes on unchanged. */
    method CaptureOnly(ends: Endpoints, now: nat)
      requires Valid()
      modifies this, byReal.Values
      ensures Valid()
      ensures State() == Capture(old(State()), ends, now)
    {
      hide FlowKey, Touch, Open;
      var key := KeyOf(ends);
      if key in byReal {
        var p := Refresh(key, now);
      } else {
        var f, ok := OpenFlow(ends, now);
      }
    }

    method LookupFake(p: u16) returns (r: Option<Endpoints>)
      requires Valid()
      ensures r == Lookup(State(), p)
    {
      if p !in byFake { return None; }
      return Some(byFake[p].ends);
    }
  }

  ghost predicate Paired(byReal: map<Bytes, WinFlow>, byFake: map<u16, WinFlow>)
    reads byReal.Values, byFake.Values
  {
    && (forall k | k in byReal :: FakePort(byReal[k].fakeP) && byReal[k].fakeP in byFake
                                  && byFake[byReal[k].fakeP] == byReal[k] && KeyOf(byReal[k].ends) == k)
    && (forall p | p in byFake :: byFake[p].fakeP == p && KeyOf(byFake[p].ends) in byReal
                                  && byReal[KeyOf(byFake[p].ends)] == byFake[p])
  }

  ghost function Flows(byReal: map<Bytes, WinFlow>): map<Bytes, Flow>
    reads byReal.Values
  {
    map k | k in byReal :: byReal[k].Value()
  }

  ghost function Fakes(byFake: map<u16, WinFlow>): map<u16, Flow>
    reads byFake.Values
  {
    map p | p in byFake :: byFake[p].Value()
  }

  ghost function PortsOf(byReal: map<Bytes, WinFlow>, keys: set<Bytes>): set<u16>
    reads byReal.Values
    requires keys <= byReal.Keys
  {
    set k | k in keys :: byReal[k].fakeP
  }

  lemma FakeKeys(f: map<u16, WinFlow>)
    ensures Fakes(f).Keys == f.Keys
  {
  }

  lemma NothingGone(r: map<Bytes, WinFlow>, f: map<u16, WinFlow>)
    ensures r - {} == r && f - PortsOf(r, {}) == f
  {
  }

  lemma OneMoreGone(r: map<Bytes, WinFlow>, f: map<u16, WinFlow>, gone: set<Bytes>, k: Bytes)
    requires gone <= r.Keys && k in r
    ensures r - gone - {k} == r - (gone + {k}) && f - PortsOf(r, gone) - {r[k].fakeP} == f - PortsOf(r, gone + {k})
  {
    assert PortsOf(r, gone + {k}) == PortsOf(r, gone) + {r[k].fakeP};
  }

  lemma GoneIsGc(r: map<Bytes, WinFlow>, f: map<u16, WinFlow>, next: u16, now: int, gone: set<Bytes>)
    requires gone == set k | k in r && now - r[k].last > IDLE
    ensures Nat(Flows(r) - gone, Fakes(f) - PortsOf(r, gone), next) == Gc(Nat(Flows(r), Fakes(f), next), now)
  {
    var flows := Flows(r);
    assert gone == set k | k in flows && Idle(flows[k], now);
    assert PortsOf(r, gone) == set k | k in gone :: flows[k].fakeP;
  }

  lemma RestrictPairs(r: map<Bytes, WinFlow>, f: map<u16, WinFlow>, gone: set<Bytes>)
    requires Paired(r, f) && gone <= r.Keys
    ensures Paired(r - gone, f - PortsOf(r, gone))
    ensures Flows(r - gone) == Flows(r) - gone && Fakes(f - PortsOf(r, gone)) == Fakes(f) - PortsOf(r, gone)
  {
    hide KeyOf;
  }

  lemma ExtendPairs(r: map<Bytes, WinFlow>, f: map<u16, WinFlow>, k: Bytes, g: WinFlow)
    requires Paired(r, f) && k !in r && KeyOf(g.ends) == k && FakePort(g.fakeP) && g.fakeP !in f
    ensures Paired(r[k := g], f[g.fakeP := g])
    ensures Flows(r[k := g]) == Flows(r)[k := g.Value()] && Fakes(f[g.fakeP := g]) == Fakes(f)[g.fakeP := g.Value()]
  {
    hide KeyOf;
  }
}
