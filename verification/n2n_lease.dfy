/** The supernode as it really runs: one goroutine per packet and one for the cleanup timer,
    interleaved at every lock operation. Allocation takes only the pool mutex, so it can run
    between the release and the removal of an entry that holds the other one. */
module N2nLease {
  import opened Bytes
  import opened IP
  import opened N2nProtocol
  import opened N2nSupernode
  import opened Options

  /** What a goroutine still has to do between two locked regions. */
  datatype Thread =
    | Leased(vip: Bytes, addr: Addr, reg: Registration)  // handleRegister, address allocated
    | Announcing(vip: Bytes, addr: Addr)                 // broadcastPeerUpdate not yet run
    | Refreshed(request: Packet, addr: Addr)             // handleHeartbeat between its two locks

  /** Who holds s.mu for writing, and how far it got. */
  datatype Section =
    | Free
    | Bye(key: Bytes)                                        // released, not yet removed
    | Sweep(at: nat, todo: set<Bytes>)                       // cleanup between two entries
    | SweepEvict(at: nat, todo: set<Bytes>, key: Bytes)      // cleanup: released, not yet removed

  datatype Node = Node(t: Tables, section: Section, threads: map<nat, Thread>, now: nat)

  datatype Step =
    | Tick(later: nat)
    | Alloc(tid: nat, addr: Addr, reg: Registration)
    | Insert(tid: nat)
    | Announced(tid: nat)
    | Refresh(tid: nat, request: Packet, addr: Addr)
    | Reply(tid: nat)
    | ByeRelease(key: Bytes)
    | ByeRemove
    | SweepStart
    | SweepSkip(key: Bytes)
    | SweepRelease(key: Bytes)
    | SweepRemove
    | SweepEnd

  const INIT := Node(Tables({}, map[], map[]), Free, map[], 0)

  ghost predicate Enabled(base: Bytes, n: Node, step: Step)
    requires ValidBase(base)
  {
    match step
    case Tick(later) => n.now <= later
    case Alloc(tid, _, _) => tid !in n.threads && FirstFree(base, n.t.used).Some?
    case Insert(tid) => n.section.Free? && tid in n.threads && n.threads[tid].Leased?
    case Announced(tid) => n.section.Free? && tid in n.threads && n.threads[tid].Announcing?
    case Refresh(tid, _, _) => n.section.Free? && tid !in n.threads
    case Reply(tid) => n.section.Free? && tid in n.threads && n.threads[tid].Refreshed?
    case ByeRelease(key) => n.section.Free? && key in n.t.peers
    case ByeRemove => n.section.Bye? && n.section.key in n.t.peers
    case SweepStart => n.section.Free?
    case SweepSkip(key) => n.section.Sweep? && key in n.section.todo && key in n.t.peers && !Stale(n.t.peers[key], n.section.at)
    case SweepRelease(key) => n.section.Sweep? && key in n.section.todo && key in n.t.peers && Stale(n.t.peers[key], n.section.at)
    case SweepRemove => n.section.SweepEvict? && n.section.key in n.t.peers
    case SweepEnd => n.section.Sweep? && n.section.todo == {}
  }

  ghost function Apply(base: Bytes, n: Node, step: Step): Node
    requires ValidBase(base) && Enabled(base, n, step)
  {
    match step
    case Tick(later) => n.(now := later)
    case Alloc(tid, addr, reg) =>
      var vip := FirstFree(base, n.t.used).value;
      n.(t := n.t.(used := n.t.used + {Key(vip)}), threads := n.threads[tid := Leased(vip, addr, reg)])
    case Insert(tid) =>
      var g := n.threads[tid];
      n.(t := Admit(n.t, g.vip, g.addr, g.reg, n.now), threads := n.threads[tid := Announcing(g.vip, g.addr)])
    case Announced(tid) => n.(threads := n.threads - {tid})
    case Refresh(tid, request, addr) =>
      n.(t := Touch(n.t, Key(request.src), n.now), threads := n.threads[tid := Refreshed(request, addr)])
    case Reply(tid) => n.(threads := n.threads - {tid})
    case ByeRelease(key) => n.(t := Release(n.t, key), section := Bye(key))
    case ByeRemove => n.(t := Remove(n.t, n.section.key), section := Free)
    case SweepStart => n.(section := Sweep(n.now, n.t.peers.Keys))
    case SweepSkip(key) => n.(section := Sweep(n.section.at, n.section.todo - {key}))
    case SweepRelease(key) =>
      n.(t := Release(n.t, key), section := SweepEvict(n.section.at, n.section.todo - {key}, key))
    case SweepRemove => n.(t := Remove(n.t, n.section.key), section := Sweep(n.section.at, n.section.todo))
    case SweepEnd => n.(section := Free)
  }

  // ---- the invariant -----------------------------------------------------

  /** The entry whose address is back in the pool while the table still shows it. */
  function Leaving(s: Section): set<Bytes> {
    if s.Bye? || s.SweepEvict? then {s.key} else {}
  }

  /** The keys of in-flight registrations. */
  function InFlight(threads: map<nat, Thread>): set<Bytes> {
    set tid | tid in threads && threads[tid].Leased? :: Key(threads[tid].vip)
  }

  /** The pool's used set is the disjoint union of the settled entries and the in-flight
      registrations, no two of which hold the same address. */
  ghost predicate Accounted(n: Node) {
    && n.t.used == (n.t.peers.Keys - Leaving(n.section)) + InFlight(n.threads)
    && (n.t.peers.Keys - Leaving(n.section)) !! InFlight(n.threads)
    && (forall a, b | a in n.threads && b in n.threads && n.threads[a].Leased? && n.threads[b].Leased? && a != b ::
          Key(n.threads[a].vip) != Key(n.threads[b].vip))
  }

  /** An index entry names a live peer that really has the address. */
  ghost predicate Indexed(t: Tables) {
    forall a | a in t.index :: t.index[a] in t.peers && t.peers[t.index[a]].addr == a
  }

  ghost predicate Keyed(base: Bytes, n: Node)
    requires ValidBase(base)
  {
    && (forall k | k in n.t.peers :: Key(n.t.peers[k].vip) == k && |n.t.peers[k].vip| == |base| && k in PoolKeys(base)
                                     && n.t.peers[k].lastSeen <= n.now)
    && (forall i | i in n.threads && n.threads[i].Leased? :: |n.threads[i].vip| == |base| && Key(n.threads[i].vip) in PoolKeys(base))
  }

  ghost predicate Sectioned(n: Node) {
    && Leaving(n.section) <= n.t.peers.Keys
    && (n.section.Sweep? || n.section.SweepEvict? ==>
          n.section.at <= n.now && n.section.todo <= n.t.peers.Keys && n.section.todo !! Leaving(n.section))
  }

  ghost predicate Inv(base: Bytes, n: Node)
    requires ValidBase(base)
  {
    Accounted(n) && Indexed(n.t) && Keyed(base, n) && Sectioned(n)
  }

  lemma StepKeepsInv(base: Bytes, n: Node, step: Step)
    requires ValidBase(base) && Inv(base, n) && Enabled(base, n, step)
    ensures Inv(base, Apply(base, n, step))
  {
    match step
    case Alloc(_, _, _) => AllocKeepsInv(base, n, step);
    case Insert(_) => InsertKeepsInv(base, n, step);
    case Announced(_) => ThreadKeepsInv(base, n, step);
    case Refresh(_, _, _) => ThreadKeepsInv(base, n, step);
    case Reply(_) => ThreadKeepsInv(base, n, step);
    case ByeRelease(_) => EvictKeepsInv(base, n, step);
    case ByeRemove => EvictKeepsInv(base, n, step);
    case SweepRelease(_) => EvictKeepsInv(base, n, step);
    case SweepRemove => EvictKeepsInv(base, n, step);
    case _ => hide PoolKeys, FirstFree;
  }

  lemma AllocKeepsInv(base: Bytes, n: Node, step: Step)
    requires ValidBase(base) && Inv(base, n) && Enabled(base, n, step) && step.Alloc?
    ensures Inv(base, Apply(base, n, step))
  {
    hide PoolKeys, FirstFree, InFlight, Key;
    FirstFreeSpec(base, n.t.used);
    var g := Leased(FirstFree(base, n.t.used).value, step.addr, step.reg);
    InFlightAdd(n.threads, step.tid, g);
    forall i | i in n.threads && n.threads[i].Leased? ensures Key(n.threads[i].vip) != Key(g.vip) {
      InFlightHas(n.threads, i);
    }
  }

  lemma InsertKeepsInv(base: Bytes, n: Node, step: Step)
    requires ValidBase(base) && Inv(base, n) && Enabled(base, n, step) && step.Insert?
    ensures Inv(base, Apply(base, n, step))
  {
    hide PoolKeys, FirstFree, InFlight, Key;
    InFlightRemove(n, step.tid);
  }

  lemma ThreadKeepsInv(base: Bytes, n: Node, step: Step)
    requires ValidBase(base) && Inv(base, n) && Enabled(base, n, step)
    requires step.Announced? || step.Refresh? || step.Reply?
    ensures Inv(base, Apply(base, n, step))
  {
    hide PoolKeys, FirstFree, InFlight, Key;
    if step.Refresh? {
      InFlightAdd(n.threads, step.tid, Refreshed(step.request, step.addr));
    } else {
      InFlightDrop(n.threads, step.tid);
    }
  }

  lemma EvictKeepsInv(base: Bytes, n: Node, step: Step)
    requires ValidBase(base) && Inv(base, n) && Enabled(base, n, step)
    requires step.ByeRelease? || step.ByeRemove? || step.SweepRelease? || step.SweepRemove?
    ensures Inv(base, Apply(base, n, step))
  {
    hide PoolKeys, FirstFree, InFlight, Key;
  }

  lemma InFlightHas(threads: map<nat, Thread>, tid: nat)
    requires tid in threads && threads[tid].Leased?
    ensures Key(threads[tid].vip) in InFlight(threads)
  {
  }

  lemma InFlightAdd(threads: map<nat, Thread>, tid: nat, g: Thread)
    requires tid !in threads
    ensures InFlight(threads[tid := g]) == InFlight(threads) + if g.Leased? then {Key(g.vip)} else {}
  {
    var after := threads[tid := g];
    forall k | k in InFlight(threads) ensures k in InFlight(after) {
      var i :| i in threads && threads[i].Leased? && Key(threads[i].vip) == k;
      assert after[i] == threads[i];
    }
    if g.Leased? { assert after[tid].Leased?; }
  }

  lemma InFlightDrop(threads: map<nat, Thread>, tid: nat)
    requires tid in threads && !threads[tid].Leased?
    ensures InFlight(threads - {tid}) == InFlight(threads)
  {
    var after := threads - {tid};
    forall k | k in InFlight(threads) ensures k in InFlight(after) {
      var i :| i in threads && threads[i].Leased? && Key(threads[i].vip) == k;
      assert after[i] == threads[i];
    }
  }

  lemma InFlightRemove(n: Node, tid: nat)
    requires Accounted(n) && tid in n.threads && n.threads[tid].Leased?
    ensures
      var g := n.threads[tid];
      InFlight(n.threads[tid := Announcing(g.vip, g.addr)]) == InFlight(n.threads) - {Key(g.vip)}
      && Key(g.vip) in InFlight(n.threads)
  {
    var g := n.threads[tid];
    var after := n.threads[tid := Announcing(g.vip, g.addr)];
    forall k | k in InFlight(n.threads) - {Key(g.vip)} ensures k in InFlight(after) {
      var i :| i in n.threads && n.threads[i].Leased? && Key(n.threads[i].vip) == k;
      assert after[i] == n.threads[i];
    }
  }

  // ---- runs --------------------------------------------------------------

  ghost predicate Run(base: Bytes, nodes: seq<Node>, steps: seq<Step>)
    requires ValidBase(base)
  {
    && |nodes| == |steps| + 1
    && nodes[0] == INIT
    && forall i :: 0 <= i < |steps| ==> Enabled(base, nodes[i], steps[i]) && nodes[i + 1] == Apply(base, nodes[i], steps[i])
  }

  lemma {:induction false} RunKeepsInv(base: Bytes, nodes: seq<Node>, steps: seq<Step>, i: nat)
    requires ValidBase(base) && Run(base, nodes, steps) && i < |nodes|
    ensures Inv(base, nodes[i])
  {
    if i > 0 {
      RunKeepsInv(base, nodes, steps, i - 1);
      StepKeepsInv(base, nodes[i - 1], steps[i - 1]);
    }
  }

  /** In every run, whenever s.mu is free the used set is exactly the disjoint union of the
      table's keys and the in-flight addresses, and every index entry is sound. */
  lemma PoolAccountsForLeases(base: Bytes, nodes: seq<Node>, steps: seq<Step>, i: nat)
    requires ValidBase(base) && Run(base, nodes, steps) && i < |nodes| && nodes[i].section.Free?
    ensures nodes[i].t.used == nodes[i].t.peers.Keys + InFlight(nodes[i].threads)
    ensures nodes[i].t.peers.Keys !! InFlight(nodes[i].threads)
    ensures Indexed(nodes[i].t)
  {
    RunKeepsInv(base, nodes, steps, i);
  }

  /** A registration never overwrites a live peer: it adds one entry, seen now, and its index entry, and
      changes no other entry. */
  lemma RegistrationNeverOverwrites(base: Bytes, nodes: seq<Node>, steps: seq<Step>, i: nat)
    requires ValidBase(base) && Run(base, nodes, steps) && i < |steps| && steps[i].Insert?
    ensures
      var g := nodes[i].threads[steps[i].tid];
      Key(g.vip) !in nodes[i].t.peers
      && nodes[i + 1].t.peers - {Key(g.vip)} == nodes[i].t.peers
      && Key(g.vip) in nodes[i + 1].t.peers
      && nodes[i + 1].t.peers[Key(g.vip)] == Lease(g.vip, g.addr, nodes[i].now, g.reg.community, g.reg.hostname)
      && nodes[i + 1].t.index == nodes[i].t.index[g.addr := Key(g.vip)]
  {
    RunKeepsInv(base, nodes, steps, i);
    InFlightRemove(nodes[i], steps[i].tid);
  }

  /** At no moment are there more than 245 leases. */
  lemma AtMostPoolSize(base: Bytes, nodes: seq<Node>, steps: seq<Step>, i: nat)
    requires ValidBase(base) && Run(base, nodes, steps) && i < |nodes|
    ensures |nodes[i].t.peers| <= 245
  {
    RunKeepsInv(base, nodes, steps, i);
    PeersFitPool(base, nodes[i]);
  }

  lemma PeersFitPool(base: Bytes, n: Node)
    requires ValidBase(base) && Inv(base, n)
    ensures |n.t.peers| <= 245
  {
    PoolSize(base);
    assert n.t.peers.Keys <= PoolKeys(base);
    SubsetSize(n.t.peers.Keys, PoolKeys(base));
  }

  lemma SubsetSize<T>(a: set<T>, b: set<T>)
    requires a <= b
    ensures |a| <= |b|
  {
    assert b == a + (b - a);
  }

  // ---- leases over time --------------------------------------------------

  lemma {:induction false} ClockMonotone(base: Bytes, nodes: seq<Node>, steps: seq<Step>, i: nat, j: nat)
    requires ValidBase(base) && Run(base, nodes, steps) && i <= j < |nodes|
    ensures nodes[i].now <= nodes[j].now
    decreases j
  {
    if i < j { ClockMonotone(base, nodes, steps, i, j - 1); }
  }

  ghost predicate Live(n: Node, key: Bytes, addr: Addr) {
    key in n.t.peers && key !in Leaving(n.section) && n.t.peers[key].addr == addr
  }

  /** At moment m the peer's last refresh since moment i, or its state at i, is at most five
      minutes old. */
  ghost predicate RefreshedInTime(nodes: seq<Node>, steps: seq<Step>, key: Bytes, i: nat, m: nat)
    requires i <= m < |nodes| && |nodes| == |steps| + 1 && key in nodes[i].t.peers
  {
    || nodes[m].now - nodes[i].t.peers[key].lastSeen <= TIMEOUT
    || exists r :: i <= r < m && IsRefresh(steps[r], key) && nodes[m].now - nodes[r].now <= TIMEOUT
  }

  ghost predicate IsRefresh(step: Step, key: Bytes) {
    step.Refresh? && Key(step.request.src) == key
  }

  /** The peer is live throughout i..m and has seen every refresh of that stretch. */
  ghost predicate Held(nodes: seq<Node>, steps: seq<Step>, key: Bytes, i: nat, m: nat)
    requires i <= m < |nodes| && |nodes| == |steps| + 1 && key in nodes[i].t.peers
  {
    && Live(nodes[m], key, nodes[i].t.peers[key].addr)
    && nodes[i].t.peers[key].lastSeen <= nodes[m].t.peers[key].lastSeen
    && forall r :: i <= r < m && IsRefresh(steps[r], key) ==> nodes[r].now <= nodes[m].t.peers[key].lastSeen
  }

  /** One step away from a live peer last seen at most five minutes ago. */
  lemma LiveStep(base: Bytes, n: Node, step: Step, key: Bytes, addr: Addr)
    requires ValidBase(base) && Inv(base, n) && Enabled(base, n, step) && step != ByeRelease(key)
    requires Live(n, key, addr) && n.now - n.t.peers[key].lastSeen <= TIMEOUT
    ensures var n' := Apply(base, n, step);
      && Live(n', key, addr) && n.t.peers[key].lastSeen <= n'.t.peers[key].lastSeen
      && (IsRefresh(step, key) ==> n.now <= n'.t.peers[key].lastSeen)
  {
    hide InFlight, PoolKeys, FirstFree, Indexed, Key;
    if step.Insert? {
      InFlightRemove(n, step.tid);
      assert Key(n.threads[step.tid].vip) != key;
    }
  }

  lemma AllocAvoidsLive(base: Bytes, n: Node, step: Step, key: Bytes, addr: Addr)
    requires ValidBase(base) && Inv(base, n) && Enabled(base, n, step) && step.Alloc? && Live(n, key, addr)
    ensures Key(Apply(base, n, step).threads[step.tid].vip) != key
  {
    hide InFlight, PoolKeys, FirstFree, Indexed, Key;
    FirstFreeSpec(base, n.t.used);
    assert key in n.t.used;
  }

  lemma HeldStep(base: Bytes, nodes: seq<Node>, steps: seq<Step>, key: Bytes, i: nat, m: nat)
    requires ValidBase(base) && Run(base, nodes, steps) && i <= m < |steps| && key in nodes[i].t.peers
    requires Held(nodes, steps, key, i, m) && steps[m] != ByeRelease(key)
    requires RefreshedInTime(nodes, steps, key, i, m)
    ensures Held(nodes, steps, key, i, m + 1)
    ensures steps[m].Alloc? ==> Key(nodes[m + 1].threads[steps[m].tid].vip) != key
  {
    hide Inv, Enabled, Apply, IsRefresh, Key;
    RunKeepsInv(base, nodes, steps, m);
    forall r | i <= r < m && IsRefresh(steps[r], key) ensures nodes[r].now <= nodes[m].now {
      ClockMonotone(base, nodes, steps, r, m);
    }
    LiveStep(base, nodes[m], steps[m], key, nodes[i].t.peers[key].addr);
    if steps[m].Alloc? { AllocAvoidsLive(base, nodes[m], steps[m], key, nodes[i].t.peers[key].addr); }
  }

  /** A peer refreshed at least every five minutes is never evicted, keeps its address, and
      its virtual IP is never allocated again, until its Bye. */
  lemma {:induction false} RefreshedPeerIsKept(base: Bytes, nodes: seq<Node>, steps: seq<Step>, key: Bytes, i: nat, j: nat)
    requires ValidBase(base) && Run(base, nodes, steps) && i <= j < |nodes|
    requires key in nodes[i].t.peers && Live(nodes[i], key, nodes[i].t.peers[key].addr)
    requires forall m :: i <= m < j ==> steps[m] != ByeRelease(key) && RefreshedInTime(nodes, steps, key, i, m)
    ensures Held(nodes, steps, key, i, j)
    ensures forall m :: i <= m <= j ==> Live(nodes[m], key, nodes[i].t.peers[key].addr)
    ensures forall m :: i <= m < j && steps[m].Alloc? ==> Key(nodes[m + 1].threads[steps[m].tid].vip) != key
    decreases j
  {
    hide Enabled, Apply, IsRefresh, Key, Stale;
    if i < j {
      RefreshedPeerIsKept(base, nodes, steps, key, i, j - 1);
      HeldStep(base, nodes, steps, key, i, j - 1);
    }
  }

  /** How far a sweep begun at moment i got: exactly the stale entries already visited are
      gone, and the index has lost exactly their addresses. */
  ghost predicate SweptSoFar(start: Node, n: Node) {
    && (n.section.Sweep? || n.section.SweepEvict?) && n.section.at == start.now
    && n.section.todo <= start.t.peers.Keys
    && (var kept := n.section.todo + Leaving(n.section);
        && n.t.peers == (map k | k in start.t.peers && (k in kept || !Stale(start.t.peers[k], start.now)) :: start.t.peers[k])
        && (forall a :: a in n.t.index <==> (a in start.t.index && forall k |
              k in start.t.peers && k !in kept && Stale(start.t.peers[k], start.now) :: start.t.peers[k].addr != a))
        && (forall a | a in n.t.index :: n.t.index[a] == start.t.index[a]))
    && (n.section.SweepEvict? ==> n.section.key in start.t.peers && Stale(start.t.peers[n.section.key], start.now))
  }

  /** A stale peer is recorded at the address. */
  ghost predicate HasStale(n: Node, a: Addr) {
    exists k :: k in n.t.peers && Stale(n.t.peers[k], n.now) && n.t.peers[k].addr == a
  }

  lemma SweepStep(base: Bytes, start: Node, n: Node, step: Step)
    requires ValidBase(base) && Inv(base, n) && Enabled(base, n, step) && SweptSoFar(start, n) && step != SweepEnd
    ensures SweptSoFar(start, Apply(base, n, step))
  {
    hide Accounted, Keyed, FirstFree, PoolKeys, Key, Indexed;
    if step.SweepRemove? {
      EvictedSoFar(base, start, n);
    } else if step.SweepSkip? {
      SkippedSoFar(base, start, n, step.key);
    } else {
      assert step.Tick? || step.Alloc? || step.SweepRelease?;
    }
  }

  lemma SkippedSoFar(base: Bytes, start: Node, n: Node, key: Bytes)
    requires ValidBase(base) && Sectioned(n) && Enabled(base, n, SweepSkip(key)) && SweptSoFar(start, n)
    ensures SweptSoFar(start, Apply(base, n, SweepSkip(key)))
  {
    hide FirstFree, PoolKeys, Key;
    var n' := Apply(base, n, SweepSkip(key));
    assert !Stale(start.t.peers[key], start.now);
  }

  lemma EvictedSoFar(base: Bytes, start: Node, n: Node)
    requires ValidBase(base) && Sectioned(n) && Enabled(base, n, SweepRemove) && SweptSoFar(start, n)
    ensures SweptSoFar(start, Apply(base, n, SweepRemove))
  {
    hide FirstFree, PoolKeys, Key, Stale;
    assert Apply(base, n, SweepRemove).t.peers == n.t.peers - {n.section.key};
  }

  lemma {:induction false} SweepProgress(base: Bytes, nodes: seq<Node>, steps: seq<Step>, i: nat, j: nat)
    requires ValidBase(base) && Run(base, nodes, steps) && i < j < |nodes|
    requires steps[i] == SweepStart && forall m :: i < m < j ==> steps[m] != SweepEnd
    ensures SweptSoFar(nodes[i], nodes[j])
    decreases j
  {
    if j == i + 1 {
      assert nodes[j].t.peers == nodes[i].t.peers;
    } else {
      SweepProgress(base, nodes, steps, i, j - 1);
      RunKeepsInv(base, nodes, steps, j - 1);
      SweepStep(base, nodes[i], nodes[j - 1], steps[j - 1]);
    }
  }

  /** A completed sweep removes exactly the peers not seen for more than five minutes when
      it started, whatever ran beside it, and exactly the index entries at their real addresses;
      an evicted virtual address is back in the pool, unless a registration that ran meanwhile
      has already taken it. */
  lemma SweepEvictsExactlyTheStale(base: Bytes, nodes: seq<Node>, steps: seq<Step>, i: nat, j: nat)
    requires ValidBase(base) && Run(base, nodes, steps) && i < j < |steps|
    requires steps[i] == SweepStart && steps[j] == SweepEnd && forall m :: i < m < j ==> steps[m] != SweepEnd
    ensures
      var before, after := nodes[i], nodes[j + 1];
      after.t.peers == (map k | k in before.t.peers && !Stale(before.t.peers[k], before.now) :: before.t.peers[k])
      && (forall k | k in before.t.peers :: k in after.t.used <==> (!Stale(before.t.peers[k], before.now) || k in InFlight(after.threads)))
      && (forall a :: a in after.t.index <==> a in before.t.index && !HasStale(before, a))
      && (forall a | a in after.t.index :: after.t.index[a] == before.t.index[a])
  {
    SweepProgress(base, nodes, steps, i, j);
    RunKeepsInv(base, nodes, steps, j + 1);
  }

  /** The same sweep run alone, entry by entry, is the cleanup method of the class. */
  lemma LoneSweepIsCleanup(base: Bytes, nodes: seq<Node>, steps: seq<Step>, i: nat, j: nat)
    requires ValidBase(base) && Run(base, nodes, steps) && i < j < |steps|
    requires steps[i] == SweepStart && steps[j] == SweepEnd
    requires forall m :: i < m < j ==> steps[m].SweepSkip? || steps[m].SweepRelease? || steps[m].SweepRemove?
    ensures nodes[j + 1].t == Swept(nodes[i].t, nodes[i].now)
  {
    hide Keyed, PoolKeys, InFlight, Swept, Accounted, Indexed, SweptSoFar;
    SweepProgress(base, nodes, steps, i, j);
    RunKeepsInv(base, nodes, steps, i);
    RunKeepsInv(base, nodes, steps, j);
    ThreadsUntouched(base, nodes, steps, i, j + 1);
    SweptTables(base, nodes[i], nodes[j]);
  }

  lemma SweptTables(base: Bytes, start: Node, end: Node)
    requires ValidBase(base) && Inv(base, start) && Inv(base, end) && start.section.Free?
    requires SweptSoFar(start, end) && end.section.Sweep? && end.section.todo == {} && end.threads == start.threads
    ensures end.t == Swept(start.t, start.now)
  {
    hide PoolKeys, InFlight, Indexed, Sectioned, Accounted, Key;
    var gone := set k | k in start.t.peers && Stale(start.t.peers[k], start.now);
    assert end.t.peers == start.t.peers - gone;
    assert end.t.index == start.t.index - (set k | k in gone :: start.t.peers[k].addr);
    assert (set k | k in gone :: Key(start.t.peers[k].vip)) == gone;
    SweptPool(start, end, gone);
  }

  lemma SweptPool(start: Node, end: Node, gone: set<Bytes>)
    requires Accounted(start) && Accounted(end) && start.section.Free? && end.section.Sweep?
    requires end.threads == start.threads && gone <= start.t.peers.Keys && end.t.peers == start.t.peers - gone
    ensures end.t.used == start.t.used - gone
  {
    hide InFlight;
  }

  lemma {:induction false} ThreadsUntouched(base: Bytes, nodes: seq<Node>, steps: seq<Step>, i: nat, m: nat)
    requires ValidBase(base) && Run(base, nodes, steps) && i <= m <= |steps|
    requires forall l :: i <= l < m ==> steps[l].SweepStart? || steps[l].SweepSkip? || steps[l].SweepRelease?
                                            || steps[l].SweepRemove? || steps[l].SweepEnd?
    ensures nodes[m].threads == nodes[i].threads
    decreases m
  {
    if i < m { ThreadsUntouched(base, nodes, steps, i, m - 1); }
  }

  // ---- when a lease was last seen ----------------------------------------

  /** The step enters a peer under the key, or refreshes it. */
  ghost predicate Sees(n: Node, step: Step, key: Bytes) {
    || IsRefresh(step, key)
    || (step.Insert? && step.tid in n.threads && n.threads[step.tid].Leased? && Key(n.threads[step.tid].vip) == key)
  }

  lemma SeenStep(base: Bytes, n: Node, step: Step, key: Bytes)
    requires ValidBase(base) && Inv(base, n) && Enabled(base, n, step) && key in Apply(base, n, step).t.peers
    ensures
      var n' := Apply(base, n, step);
      && (Sees(n, step, key) ==> n'.t.peers[key].lastSeen == n.now)
      && (!Sees(n, step, key) ==> key in n.t.peers && n'.t.peers[key] == n.t.peers[key])
  {
    hide InFlight, PoolKeys, FirstFree, Indexed, Key;
  }

  /** In every run, a peer's last-seen time is the time of the last step that entered or refreshed
      it. */
  lemma {:induction false} LastSeenIsLatest(base: Bytes, nodes: seq<Node>, steps: seq<Step>, j: nat, key: Bytes) returns (r: nat)
    requires ValidBase(base) && Run(base, nodes, steps) && j < |nodes| && key in nodes[j].t.peers
    ensures r < j && Sees(nodes[r], steps[r], key) && nodes[j].t.peers[key].lastSeen == nodes[r].now
    ensures forall m :: r < m < j ==> !Sees(nodes[m], steps[m], key)
    decreases j
  {
    hide Inv, Enabled, Apply, Sees;
    RunStart(base, nodes, steps);
    RunKeepsInv(base, nodes, steps, j - 1);
    SeenStep(base, nodes[j - 1], steps[j - 1], key);
    if Sees(nodes[j - 1], steps[j - 1], key) {
      r := j - 1;
    } else {
      r := LastSeenIsLatest(base, nodes, steps, j - 1, key);
    }
  }

  lemma RunStart(base: Bytes, nodes: seq<Node>, steps: seq<Step>)
    requires ValidBase(base) && Run(base, nodes, steps)
    ensures nodes[0].t.peers == map[]
  {
  }

  /** A sweep that starts more than five minutes after the last step that entered or refreshed a
      peer removes it. */
  lemma SilentPeerIsEvicted(base: Bytes, nodes: seq<Node>, steps: seq<Step>, r: nat, i: nat, j: nat, key: Bytes)
    requires ValidBase(base) && Run(base, nodes, steps) && r < i < j < |steps|
    requires steps[i] == SweepStart && steps[j] == SweepEnd && forall m :: i < m < j ==> steps[m] != SweepEnd
    requires forall m :: r < m < i ==> !Sees(nodes[m], steps[m], key)
    requires nodes[i].now - nodes[r].now > 300_000_000_000
    ensures key !in nodes[j + 1].t.peers
  {
    hide Run, Inv, Enabled, Apply, Sees, Key;
    SweepEvictsExactlyTheStale(base, nodes, steps, i, j);
    RunLength(base, nodes, steps);
    if key in nodes[i].t.peers {
      var q := LastSeenIsLatest(base, nodes, steps, i, key);
      ClockMonotone(base, nodes, steps, q, r);
    }
  }

  lemma RunLength(base: Bytes, nodes: seq<Node>, steps: seq<Step>)
    requires ValidBase(base) && Run(base, nodes, steps)
    ensures |nodes| == |steps| + 1
  {
  }

  /** A peer that has just registered is kept for five minutes, until its Bye, whatever else
      runs. */
  lemma NewLeaseIsKept(base: Bytes, nodes: seq<Node>, steps: seq<Step>, i: nat, j: nat)
    requires ValidBase(base) && Run(base, nodes, steps) && i < j < |nodes| && steps[i].Insert?
    requires steps[i].tid in nodes[i].threads && nodes[i].threads[steps[i].tid].Leased?
    requires forall m :: i < m < j ==> steps[m] != ByeRelease(Key(nodes[i].threads[steps[i].tid].vip))
    requires forall m :: i < m < j ==> nodes[m].now - nodes[i].now <= 300_000_000_000
    ensures var g := nodes[i].threads[steps[i].tid]; Live(nodes[j], Key(g.vip), g.addr)
  {
    hide Inv, InFlight, Key;
    var g := nodes[i].threads[steps[i].tid];
    assert Enabled(base, nodes[i], steps[i]) && nodes[i + 1] == Apply(base, nodes[i], steps[i]);
    var key := Key(g.vip);
    assert nodes[i + 1].t.peers[key] == Lease(g.vip, g.addr, nodes[i].now, g.reg.community, g.reg.hostname);
    RefreshedPeerIsKept(base, nodes, steps, key, i + 1, j);
  }

  // ---- the steps and the methods -----------------------------------------

  /** handleRegister's two steps, run alone, do what HandleRegister's contract says. */
  lemma RegisterStepsAreHandleRegister(base: Bytes, n: Node, tid: nat, addr: Addr, reg: Registration)
    requires ValidBase(base) && n.section.Free? && tid !in n.threads && FirstFree(base, n.t.used).Some?
    ensures
      var vip := FirstFree(base, n.t.used).value;
      Enabled(base, n, Alloc(tid, addr, reg)) &&
      var leased := Apply(base, n, Alloc(tid, addr, reg));
      Enabled(base, leased, Insert(tid)) &&
      Apply(base, leased, Insert(tid)).t == Admit(n.t.(used := n.t.used + {Key(vip)}), vip, addr, reg, n.now)
  {
    hide Key, FirstFree;
  }

  /** handleHeartbeat's two steps. */
  lemma HeartbeatStepsAreHandleHeartbeat(base: Bytes, n: Node, tid: nat, request: Packet, addr: Addr)
    requires ValidBase(base) && n.section.Free? && tid !in n.threads
    ensures
      Enabled(base, n, Refresh(tid, request, addr)) &&
      var refreshed := Apply(base, n, Refresh(tid, request, addr));
      Enabled(base, refreshed, Reply(tid)) && Apply(base, refreshed, Reply(tid)).t == Touch(n.t, Key(request.src), n.now)
  {
    hide Key;
  }

  /** handleBye's two steps, for a known sender. */
  lemma ByeStepsAreHandleBye(base: Bytes, n: Node, key: Bytes)
    requires ValidBase(base) && n.section.Free? && key in n.t.peers
    ensures
      Enabled(base, n, ByeRelease(key)) &&
      var released := Apply(base, n, ByeRelease(key));
      Enabled(base, released, ByeRemove) && Apply(base, released, ByeRemove).t == Remove(Release(n.t, key), key)
      && Apply(base, released, ByeRemove).section.Free?
  {
    hide Key;
  }

  /** A Bye leaves nothing of the peer: in every run its entry, its index entry and its place in the
      pool are gone as soon as s.mu is free again, the place unless a registration has taken it. */
  lemma ByeFreesTheLease(base: Bytes, nodes: seq<Node>, steps: seq<Step>, i: nat, j: nat, key: Bytes)
    requires ValidBase(base) && Run(base, nodes, steps) && i < j < |steps|
    requires steps[i] == ByeRelease(key) && steps[j] == ByeRemove && forall m :: i < m < j ==> steps[m] != ByeRemove
    ensures key in nodes[i].t.peers && key !in nodes[j + 1].t.peers && nodes[i].t.peers[key].addr !in nodes[j + 1].t.index
    ensures nodes[j + 1].section.Free? && (key in nodes[j + 1].t.used <==> key in InFlight(nodes[j + 1].threads))
  {
    hide InFlight, PoolKeys, FirstFree, Key;
    assert Enabled(base, nodes[i], steps[i]) && nodes[i + 1] == Apply(base, nodes[i], steps[i]);
    ByeHolds(base, nodes, steps, i, j, key);
    assert Enabled(base, nodes[j], steps[j]) && nodes[j + 1] == Apply(base, nodes[j], steps[j]);
    RunKeepsInv(base, nodes, steps, j + 1);
  }

  lemma {:induction false} ByeHolds(base: Bytes, nodes: seq<Node>, steps: seq<Step>, i: nat, j: nat, key: Bytes)
    requires ValidBase(base) && Run(base, nodes, steps) && i < j <= |steps|
    requires steps[i] == ByeRelease(key) && forall m :: i < m < j ==> steps[m] != ByeRemove
    ensures nodes[j].section == Bye(key) && key in nodes[i].t.peers && nodes[j].t.peers == nodes[i].t.peers
    decreases j
  {
    hide Key, FirstFree;
    if j > i + 1 {
      ByeHolds(base, nodes, steps, i, j - 1, key);
      assert Enabled(base, nodes[j - 1], steps[j - 1]) && nodes[j] == Apply(base, nodes[j - 1], steps[j - 1]);
    }
  }

  /** A sweep or a Bye under way can always go on. */
  lemma SectionNeverBlocks(base: Bytes, n: Node) returns (step: Step)
    requires ValidBase(base) && Inv(base, n) && !n.section.Free?
    ensures Enabled(base, n, step)
    ensures step.ByeRemove? || step.SweepSkip? || step.SweepRelease? || step.SweepRemove? || step.SweepEnd?
  {
    hide Accounted, Keyed, Indexed, FirstFree;
    match n.section
    case Bye(_) => step := ByeRemove;
    case SweepEvict(_, _, _) => step := SweepRemove;
    case Sweep(at, todo) =>
      if todo == {} {
        step := SweepEnd;
      } else {
        var key :| key in todo;
        step := if Stale(n.t.peers[key], at) then SweepRelease(key) else SweepSkip(key);
      }
    case Free => assert false;
  }

  /** The steps can be taken one after the other from n, and lead to n'. */
  ghost predicate Goes(base: Bytes, n: Node, steps: seq<Step>, n': Node)
    requires ValidBase(base)
    decreases |steps|
  {
    if steps == [] then n' == n else Enabled(base, n, steps[0]) && Goes(base, Apply(base, n, steps[0]), steps[1..], n')
  }

  lemma GoesByStep(base: Bytes, n: Node, step: Step, steps: seq<Step>, n': Node)
    requires ValidBase(base) && Enabled(base, n, step) && Goes(base, Apply(base, n, step), steps, n')
    ensures Goes(base, n, [step] + steps, n')
  {
    hide Enabled, Apply;
    assert ([step] + steps)[1..] == steps;
  }

  /** A step of the clock or of the cleanup goroutine. */
  predicate OfSweep(step: Step) {
    step.Tick? || step.SweepStart? || step.SweepSkip? || step.SweepRelease? || step.SweepRemove? || step.SweepEnd?
  }

  lemma SweepGoesOn(base: Bytes, start: Node, n: Node) returns (step: Step)
    requires ValidBase(base) && Inv(base, n) && SweptSoFar(start, n)
    ensures Enabled(base, n, step) && Apply(base, n, step).now == n.now && OfSweep(step)
    ensures
      var n' := Apply(base, n, step);
      if step.SweepEnd? then
        n'.section.Free? && n'.t.peers == map k | k in start.t.peers && !Stale(start.t.peers[k], start.now) :: start.t.peers[k]
      else
        (n'.section.Sweep? || n'.section.SweepEvict?) && (
        || |n'.section.todo| < |n.section.todo|
        || (n.section.SweepEvict? && n'.section.Sweep? && n'.section.todo == n.section.todo))
  {
    hide Accounted, Keyed, Indexed, FirstFree, Key, Stale;
    step := SectionNeverBlocks(base, n);
    if step.SweepSkip? || step.SweepRelease? {
      hide SweptSoFar;
      assert |n.section.todo - {step.key}| < |n.section.todo|;
    } else if step.SweepEnd? {
      SweepEndsIn(start, n);
    } else {
      hide SweptSoFar;
      assert step.SweepRemove?;
    }
  }

  lemma SweepEndsIn(start: Node, n: Node)
    requires SweptSoFar(start, n) && n.section.Sweep? && n.section.todo == {}
    ensures n.t.peers == map k | k in start.t.peers && !Stale(start.t.peers[k], start.now) :: start.t.peers[k]
  {
    hide Stale;
  }

  /** A sweep under way can be finished. */
  lemma {:induction false} SweepFinishes(base: Bytes, start: Node, n: Node) returns (steps: seq<Step>, n': Node)
    requires ValidBase(base) && Inv(base, n) && SweptSoFar(start, n)
    ensures Goes(base, n, steps, n') && n'.section.Free? && n'.now == n.now && forall step <- steps :: OfSweep(step)
    ensures n'.t.peers == map k | k in start.t.peers && !Stale(start.t.peers[k], start.now) :: start.t.peers[k]
    decreases |n.section.todo|, n.section.SweepEvict?
  {
    hide Inv, Enabled, Apply, Stale, SweptSoFar;
    var step := SweepGoesOn(base, start, n);
    var next := Apply(base, n, step);
    if step.SweepEnd? {
      steps, n' := [step], next;
      GoesByStep(base, n, step, [], n');
      assert [step] + [] == [step];
    } else {
      SweepStep(base, start, n, step);
      StepKeepsInv(base, n, step);
      var rest;
      rest, n' := SweepFinishes(base, start, next);
      GoesByStep(base, n, step, rest, n');
      steps := [step] + rest;
    }
  }

  /** While s.mu is free, at any later moment a sweep can be run to its end, and then exactly the
      peers not seen for more than five minutes are gone. */
  lemma SweepSucceeds(base: Bytes, n: Node, later: nat) returns (steps: seq<Step>, n': Node)
    requires ValidBase(base) && Inv(base, n) && n.section.Free? && n.now <= later
    ensures Goes(base, n, steps, n') && n'.section.Free? && n'.now == later && forall step <- steps :: OfSweep(step)
    ensures n'.t.peers == map k | k in n.t.peers && later - n.t.peers[k].lastSeen <= 300_000_000_000 :: n.t.peers[k]
  {
    hide Inv, Goes;
    var at := Apply(base, n, Tick(later));
    StepKeepsInv(base, n, Tick(later));
    var begun := Apply(base, at, SweepStart);
    StepKeepsInv(base, at, SweepStart);
    assert SweptSoFar(at, begun) by { SweepBegins(base, at); }
    var rest;
    rest, n' := SweepFinishes(base, at, begun);
    GoesByStep(base, at, SweepStart, rest, n');
    GoesByStep(base, n, Tick(later), [SweepStart] + rest, n');
    steps := [Tick(later)] + ([SweepStart] + rest);
  }

  lemma SweepBegins(base: Bytes, n: Node)
    requires ValidBase(base) && n.section.Free?
    ensures SweptSoFar(n, Apply(base, n, SweepStart))
  {
    hide Stale;
    assert n.t.peers == map k | k in n.t.peers :: n.t.peers[k];
  }
}
