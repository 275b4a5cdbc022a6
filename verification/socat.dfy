/** The UDP session multiplexer of socat, before cancellation: one receive loop, one goroutine
    and one connected socket per client session, interleaved at every lock and channel
    operation. */
module Socat {
  import opened Bytes
  import opened Options

  /** A client address; its text is the session key. */
  type Addr = string

  const INBOX := 128

  /** The n-th datagram the listener received. */
  datatype Msg = Msg(n: nat, peer: Addr, data: Bytes)

  /** The non-blocking send of enqueue. */
  function Offer(inbox: seq<Msg>, msg: Msg): seq<Msg> {
    if |inbox| < INBOX then inbox + [msg] else inbox
  }

  /** What enqueue does to the inboxes of the sessions in the table. */
  function Enqueued(boxes: map<Addr, seq<Msg>>, msg: Msg): map<Addr, seq<Msg>> {
    boxes[msg.peer := Offer(if msg.peer in boxes then boxes[msg.peer] else [], msg)]
  }

  // ---- the table, as enqueue and drop change it --------------------------

  class UdpSession {
    const key: Addr
    var inbox: seq<Msg>

    constructor (key: Addr)
      ensures this.key == key && inbox == []
    {
      this.key := key;
      inbox := [];
    }
  }

  class UdpSessions {
    var m: map<Addr, UdpSession>

    ghost predicate Valid()
      reads this
    {
      && (forall k | k in m :: m[k].key == k)
    }

    ghost function Inboxes(): map<Addr, seq<Msg>>
      reads this, m.Values
    {
      map k | k in m :: m[k].inbox
    }

    constructor ()
      ensures Valid() && Inboxes() == map[]
    {
      m := map[];
    }

    /** enqueue: the message is offered to the client's own session, made if missing; no other
        session changes. */
    method Enqueue(msg: Msg) returns (created: bool)
      requires Valid()
      modifies this, m.Values
      ensures Valid()
      ensures created <==> msg.peer !in old(m)
      ensures Inboxes() == Enqueued(old(Inboxes()), msg)
    {
      created := msg.peer !in m;
      ghost var before := Inboxes();
      if created {
        var sess0 := new UdpSession(msg.peer);
        m := m[msg.peer := sess0];
      }
      var sess := m[msg.peer];
      if |sess.inbox| < INBOX {
        sess.inbox := sess.inbox + [msg];
      }
      assert forall k | k in m && k != msg.peer :: m[k].key != msg.peer;
      assert Inboxes() == before[msg.peer := sess.inbox];
    }

    method Drop(key: Addr)
      requires Valid()
      modifies this
      ensures Valid() && Inboxes() == old(Inboxes()) - {key}
    {
      m := m - {key};
    }
  }

  // ---- the interleaved system --------------------------------------------

  /** Where a session's goroutine is. Failed: the dial failed and the key was dropped. Ended:
      a read from the remote socket failed; run returns and nobody drops the key. */
  datatype Phase = Dialing | Ready | Awaiting(peer: Addr) | Failed | Ended

  datatype Session = Session(key: Addr, inbox: seq<Msg>, phase: Phase)

  /** A reply read from the socket of session sid and written to a client. */
  datatype Delivery = Delivery(sid: nat, to: Addr, data: Bytes)

  /** A datagram written to the socket of session sid. */
  datatype Forward = Forward(sid: nat, msg: Msg)

  datatype System = System(table: map<Addr, nat>, sessions: seq<Session>, hold: Option<(nat, Msg)>,
                           arrivals: seq<Msg>, forwarded: seq<Forward>, delivered: seq<Delivery>)

  const INIT := System(map[], [], None, [], [], [])

  datatype Step =
    | Receive(peer: Addr, data: Bytes)            // ReadFrom, not empty, then enqueue's locked lookup
    | Push                                        // enqueue's channel send
    | DialOk(sid: nat)
    | DialFail(sid: nat)                          // and the drop that follows
    | Write(sid: nat, ok: bool)                   // take from the inbox, write to the socket
    | Reply(sid: nat, data: Bytes, sent: bool, ok: bool)  // read; write back; ok is false on a read error

  ghost predicate Enabled(s: System, step: Step) {
    match step
    case Receive(peer, data) => s.hold.None? && data != []
    case Push => s.hold.Some? && s.hold.value.0 < |s.sessions|
    case DialOk(sid) => sid < |s.sessions| && s.sessions[sid].phase.Dialing?
    case DialFail(sid) => sid < |s.sessions| && s.sessions[sid].phase.Dialing?
    case Write(sid, ok) => sid < |s.sessions| && s.sessions[sid].phase.Ready? && s.sessions[sid].inbox != []
    case Reply(sid, data, sent, ok) => sid < |s.sessions| && s.sessions[sid].phase.Awaiting? && (sent ==> data != [])
  }

  ghost function Apply(s: System, step: Step): System
    requires Enabled(s, step)
  {
    match step
    case Receive(peer, data) =>
      var msg := Msg(|s.arrivals|, peer, data);
      if peer in s.table then s.(arrivals := s.arrivals + [msg], hold := Some((s.table[peer], msg)))
      else s.(arrivals := s.arrivals + [msg], hold := Some((|s.sessions|, msg)),
              table := s.table[peer := |s.sessions|], sessions := s.sessions + [Session(peer, [], Dialing)])
    case Push =>
      var (sid, msg) := s.hold.value;
      s.(hold := None, sessions := s.sessions[sid := s.sessions[sid].(inbox := Offer(s.sessions[sid].inbox, msg))])
    case DialOk(sid) => s.(sessions := s.sessions[sid := s.sessions[sid].(phase := Ready)])
    case DialFail(sid) =>
      s.(sessions := s.sessions[sid := s.sessions[sid].(phase := Failed)], table := s.table - {s.sessions[sid].key})
    case Write(sid, ok) =>
      var e := s.sessions[sid];
      var msg := e.inbox[0];
      if ok then s.(sessions := s.sessions[sid := Session(e.key, e.inbox[1..], Awaiting(msg.peer))],
                    forwarded := s.forwarded + [Forward(sid, msg)])
      else s.(sessions := s.sessions[sid := e.(inbox := e.inbox[1..])])
    case Reply(sid, data, sent, ok) =>
      var e := s.sessions[sid];
      s.(sessions := s.sessions[sid := e.(phase := if ok then Ready else Ended)],
         delivered := if sent then s.delivered + [Delivery(sid, e.phase.peer, data)] else s.delivered)
  }

  // ---- the invariant -----------------------------------------------------

  ghost predicate Arrived(s: System, msg: Msg, key: Addr) {
    msg.n < |s.arrivals| && s.arrivals[msg.n] == msg && msg.peer == key
  }

  /** A session that has ever been dialed, or may still be, is the one its key leads to. */
  ghost predicate Tabled(s: System) {
    && (forall k | k in s.table :: s.table[k] < |s.sessions| && s.sessions[s.table[k]].key == k && !s.sessions[s.table[k]].phase.Failed?)
    && (forall i | 0 <= i < |s.sessions| && !s.sessions[i].phase.Failed? ::
          s.sessions[i].key in s.table && s.table[s.sessions[i].key] == i)
  }

  /** Inboxes hold arrivals of their own client, in arrival order, at most 128. */
  ghost predicate Boxed(s: System, e: Session) {
    && |e.inbox| <= INBOX
    && (forall j :: 0 <= j < |e.inbox| ==> Arrived(s, e.inbox[j], e.key))
    && (forall j, k :: 0 <= j < k < |e.inbox| ==> e.inbox[j].n < e.inbox[k].n)
    && (e.phase.Awaiting? ==> e.phase.peer == e.key)
  }

  ghost predicate Held(s: System) {
    s.hold.Some? ==>
      var (sid, msg) := s.hold.value;
      sid < |s.sessions| && Arrived(s, msg, s.sessions[sid].key) && msg.n == |s.arrivals| - 1
      && forall i, j | 0 <= i < |s.sessions| && 0 <= j < |s.sessions[i].inbox| :: s.sessions[i].inbox[j].n < msg.n
  }

  /** What was forwarded from a session precedes what is still in its inbox or held for it. */
  ghost predicate Ordered(s: System) {
    && (forall f | 0 <= f < |s.forwarded| :: WellForwarded(s, s.forwarded[f]))
    && (forall f, g | 0 <= f < g < |s.forwarded| && s.forwarded[f].sid == s.forwarded[g].sid ::
          s.forwarded[f].msg.n < s.forwarded[g].msg.n)
  }

  ghost predicate WellForwarded(s: System, f: Forward) {
    && f.sid < |s.sessions|
    && (s.sessions[f.sid].phase.Ready? || s.sessions[f.sid].phase.Awaiting? || s.sessions[f.sid].phase.Ended?)
    && Arrived(s, f.msg, s.sessions[f.sid].key)
    && (forall j :: 0 <= j < |s.sessions[f.sid].inbox| ==> f.msg.n < s.sessions[f.sid].inbox[j].n)
    && (s.hold.Some? ==> f.msg.n < s.hold.value.1.n)
  }

  ghost predicate Addressed(s: System) {
    forall d | 0 <= d < |s.delivered| ::
      s.delivered[d].sid < |s.sessions| && s.delivered[d].to == s.sessions[s.delivered[d].sid].key
  }

  ghost predicate Inv(s: System) {
    && Tabled(s) && (forall i | 0 <= i < |s.sessions| :: Boxed(s, s.sessions[i])) && Held(s) && Ordered(s) && Addressed(s)
  }

  lemma TabledKey(s: System, step: Step, k: Addr)
    requires Tabled(s) && Enabled(s, step) && k in Apply(s, step).table
    ensures
      var s' := Apply(s, step);
      s'.table[k] < |s'.sessions| && s'.sessions[s'.table[k]].key == k && !s'.sessions[s'.table[k]].phase.Failed?
  {
    if k in s.table { assert s.sessions[s.table[k]].key == k; }
  }

  lemma TabledSession(s: System, step: Step, i: nat)
    requires Tabled(s) && Enabled(s, step) && i < |Apply(s, step).sessions| && !Apply(s, step).sessions[i].phase.Failed?
    ensures
      var s' := Apply(s, step);
      s'.sessions[i].key in s'.table && s'.table[s'.sessions[i].key] == i
  {
    if i < |s.sessions| { assert s.sessions[i].phase.Failed? || s.table[s.sessions[i].key] == i; }
  }

  lemma TabledStep(s: System, step: Step)
    requires Tabled(s) && Enabled(s, step)
    ensures Tabled(Apply(s, step))
  {
    hide Apply, Enabled;
    var s' := Apply(s, step);
    forall k | k in s'.table
      ensures s'.table[k] < |s'.sessions| && s'.sessions[s'.table[k]].key == k && !s'.sessions[s'.table[k]].phase.Failed?
    {
      TabledKey(s, step, k);
    }
    forall i | 0 <= i < |s'.sessions| && !s'.sessions[i].phase.Failed?
      ensures s'.sessions[i].key in s'.table && s'.table[s'.sessions[i].key] == i
    {
      TabledSession(s, step, i);
    }
  }

  lemma ArrivedGrows(s: System, step: Step, msg: Msg, key: Addr)
    requires Enabled(s, step) && Arrived(s, msg, key)
    ensures Arrived(Apply(s, step), msg, key)
  {
  }

  lemma BoxGrows(s: System, step: Step, e: Session)
    requires Enabled(s, step) && Boxed(s, e)
    ensures Boxed(Apply(s, step), e)
  {
    hide Apply, Arrived, Enabled;
    forall j | 0 <= j < |e.inbox| ensures Arrived(Apply(s, step), e.inbox[j], e.key) {
      ArrivedGrows(s, step, e.inbox[j], e.key);
    }
  }

  /** A session keeps its key, and its inbox only loses its head or gains the held message. */
  lemma SessionStep(s: System, step: Step, i: nat)
    requires Enabled(s, step) && i < |s.sessions|
    ensures
      var e, e' := s.sessions[i], Apply(s, step).sessions[i];
      && |s.sessions| <= |Apply(s, step).sessions| && e'.key == e.key
      && (e'.inbox == e.inbox
          || (step == Push && i == s.hold.value.0 && e'.inbox == e.inbox + [s.hold.value.1] && |e.inbox| < INBOX)
          || (step.Write? && i == step.sid && e.inbox != [] && e'.inbox == e.inbox[1..]))
      && (e'.phase == e.phase || (!step.Receive? && !step.Push? && i == step.sid))
  {
  }

  lemma BoxedStep(s: System, step: Step, i: nat)
    requires Inv(s) && Enabled(s, step) && i < |Apply(s, step).sessions|
    ensures Boxed(Apply(s, step), Apply(s, step).sessions[i])
  {
    hide Held, Ordered, Addressed, Tabled;
    if i < |s.sessions| {
      OldBoxStep(s, step, i);
    } else {
      NewBox(s, step, i);
    }
  }

  lemma NewBox(s: System, step: Step, i: nat)
    requires Enabled(s, step) && |s.sessions| <= i < |Apply(s, step).sessions|
    ensures Apply(s, step).sessions[i].inbox == [] && Apply(s, step).sessions[i].phase.Dialing?
  {
  }

  lemma OldBoxStep(s: System, step: Step, i: nat)
    requires Inv(s) && Enabled(s, step) && i < |s.sessions| <= |Apply(s, step).sessions|
    ensures Boxed(Apply(s, step), Apply(s, step).sessions[i])
  {
    hide Apply, Arrived, Tabled, Ordered, Addressed;
    var e, e', s' := s.sessions[i], Apply(s, step).sessions[i], Apply(s, step);
    assert Boxed(s, e);
    SessionStep(s, step, i);
    BoxGrows(s, step, e);
    AwaitsOwnKey(s, step, i);
    if e'.inbox != e.inbox && step == Push {
      ArrivedGrows(s, step, s.hold.value.1, s.sessions[s.hold.value.0].key);
    }
  }

  lemma AwaitsOwnKey(s: System, step: Step, i: nat)
    requires Enabled(s, step) && i < |s.sessions| && Boxed(s, s.sessions[i])
    ensures Apply(s, step).sessions[i].phase.Awaiting? ==> Apply(s, step).sessions[i].phase.peer == s.sessions[i].key
  {
  }

  lemma HeldStep(s: System, step: Step)
    requires Inv(s) && Enabled(s, step)
    ensures Held(Apply(s, step))
  {
    hide Ordered, Addressed;
    var s' := Apply(s, step);
    if step.Receive? {
      assert Tabled(s);
      forall i, j | 0 <= i < |s'.sessions| && 0 <= j < |s'.sessions[i].inbox| ensures s'.sessions[i].inbox[j].n < |s.arrivals| {
        assert Boxed(s, s.sessions[i]);
        assert Arrived(s, s.sessions[i].inbox[j], s.sessions[i].key);
      }
    } else if step != Push && s.hold.Some? {
      assert s'.hold == s.hold && s'.arrivals == s.arrivals;
      SessionStep(s, step, s.hold.value.0);
      forall i, j | 0 <= i < |s'.sessions| && 0 <= j < |s'.sessions[i].inbox| ensures s'.sessions[i].inbox[j].n < s.hold.value.1.n {
        SessionStep(s, step, i);
      }
    }
  }

  /** What was forwarded stays well forwarded. */
  lemma ForwardStays(s: System, step: Step, f: nat)
    requires Inv(s) && Enabled(s, step) && f < |s.forwarded|
    ensures f < |Apply(s, step).forwarded| && Apply(s, step).forwarded[f] == s.forwarded[f]
    ensures WellForwarded(Apply(s, step), s.forwarded[f])
  {
    hide Tabled, Addressed, Boxed;
    var w := s.forwarded[f];
    assert WellForwarded(s, w);
    SessionStep(s, step, w.sid);
    ArrivedGrows(s, step, w.msg, s.sessions[w.sid].key);
    PhaseStays(s, step, w.sid);
    var e, e' := s.sessions[w.sid], Apply(s, step).sessions[w.sid];
    forall j | 0 <= j < |e'.inbox| ensures w.msg.n < e'.inbox[j].n { }
    HoldStays(s, step);
  }

  lemma PhaseStays(s: System, step: Step, i: nat)
    requires Enabled(s, step) && i < |s.sessions|
    requires s.sessions[i].phase.Ready? || s.sessions[i].phase.Awaiting? || s.sessions[i].phase.Ended?
    ensures var p := Apply(s, step).sessions[i].phase; p.Ready? || p.Awaiting? || p.Ended?
  {
  }

  lemma HoldStays(s: System, step: Step)
    requires Enabled(s, step)
    ensures var h := Apply(s, step).hold;
            h.Some? ==> h == s.hold || h.value.1.n == |s.arrivals|
  {
  }

  lemma WriteForwards(s: System, step: Step)
    requires Inv(s) && Enabled(s, step) && step.Write? && step.ok
    ensures WellForwarded(Apply(s, step), Forward(step.sid, s.sessions[step.sid].inbox[0]))
  {
    hide Tabled, Addressed, Ordered;
    assert Boxed(s, s.sessions[step.sid]);
  }

  lemma OrderedStep(s: System, step: Step)
    requires Inv(s) && Enabled(s, step)
    ensures Ordered(Apply(s, step))
  {
    hide WellForwarded, Tabled, Addressed, Boxed, Held;
    var s' := Apply(s, step);
    forall f | 0 <= f < |s.forwarded| ensures WellForwarded(s', s.forwarded[f]) { ForwardStays(s, step, f); }
    if step.Write? && step.ok {
      WriteForwards(s, step);
      forall f | 0 <= f < |s.forwarded| && s.forwarded[f].sid == step.sid
        ensures s.forwarded[f].msg.n < s.sessions[step.sid].inbox[0].n
      {
        ForwardBeforeInbox(s, s.forwarded[f], 0);
      }
    }
  }

  lemma ForwardBeforeInbox(s: System, f: Forward, j: nat)
    requires WellForwarded(s, f) && j < |s.sessions[f.sid].inbox|
    ensures f.msg.n < s.sessions[f.sid].inbox[j].n
  {
  }

  lemma AddressedStep(s: System, step: Step)
    requires Inv(s) && Enabled(s, step)
    ensures Addressed(Apply(s, step))
  {
    hide Tabled, Ordered, Held;
    if step.Reply? { assert Boxed(s, s.sessions[step.sid]); }
  }

  lemma StepKeepsInv(s: System, step: Step)
    requires Inv(s) && Enabled(s, step)
    ensures Inv(Apply(s, step))
  {
    hide Apply, Tabled, Boxed, Held, Ordered, Addressed;
    TabledStep(s, step);
    forall i | 0 <= i < |Apply(s, step).sessions| ensures Boxed(Apply(s, step), Apply(s, step).sessions[i]) {
      BoxedStep(s, step, i);
    }
    HeldStep(s, step);
    OrderedStep(s, step);
    AddressedStep(s, step);
  }

  // ---- runs --------------------------------------------------------------

  ghost predicate Run(states: seq<System>, steps: seq<Step>) {
    && |states| == |steps| + 1 && states[0] == INIT
    && forall i :: 0 <= i < |steps| ==> Enabled(states[i], steps[i]) && states[i + 1] == Apply(states[i], steps[i])
  }

  lemma {:induction false} RunKeepsInv(states: seq<System>, steps: seq<Step>, i: nat)
    requires Run(states, steps) && i < |states|
    ensures Inv(states[i])
  {
    hide Enabled, Apply;
    if i == 0 {
      InitInv();
    } else {
      RunKeepsInv(states, steps, i - 1);
      StepKeepsInv(states[i - 1], steps[i - 1]);
    }
  }

  lemma InitInv()
    ensures Inv(INIT)
  {
  }

  // ---- the run as its steps tell it --------------------------------------

  lemma StepOfRun(states: seq<System>, steps: seq<Step>, k: nat)
    requires Run(states, steps) && k < |steps|
    ensures |states| == |steps| + 1 && Enabled(states[k], steps[k]) && states[k + 1] == Apply(states[k], steps[k])
  {
  }

  /** The datagrams the listener has read in the first i steps, numbered. */
  ghost function Read(steps: seq<Step>, i: nat): seq<Msg>
    requires i <= |steps|
  {
    if i == 0 then []
    else
      var before := Read(steps, i - 1);
      match steps[i - 1]
      case Receive(peer, data) => before + [Msg(|before|, peer, data)]
      case _ => before
  }

  /** The datagrams written to the sockets of sessions in the first i steps, each with its session:
      what stood at the head of the session's inbox. */
  ghost function Written(states: seq<System>, steps: seq<Step>, i: nat): seq<Forward>
    requires i <= |steps| < |states|
  {
    if i == 0 then []
    else
      var before := Written(states, steps, i - 1);
      match steps[i - 1]
      case Write(sid, ok) =>
        if ok && sid < |states[i - 1].sessions| && states[i - 1].sessions[sid].inbox != []
        then before + [Forward(sid, states[i - 1].sessions[sid].inbox[0])] else before
      case _ => before
  }

  /** The replies read and written back in the first i steps, each with the client of its session. */
  ghost function Returned(states: seq<System>, steps: seq<Step>, i: nat): seq<Delivery>
    requires i <= |steps| < |states|
  {
    if i == 0 then []
    else
      var before := Returned(states, steps, i - 1);
      match steps[i - 1]
      case Reply(sid, data, sent, _) =>
        if sent && sid < |states[i - 1].sessions| then before + [Delivery(sid, states[i - 1].sessions[sid].key, data)] else before
      case _ => before
  }

  /** In every run, the clients have been sent exactly the replies read, in order: one for each reply
      that was written back, with its bytes, to the client whose session it came from. */
  lemma {:induction false} DeliveredIsReturned(states: seq<System>, steps: seq<Step>, i: nat)
    requires Run(states, steps) && i < |states|
    ensures states[i].delivered == Returned(states, steps, i)
  {
    hide Run, Inv;
    RunStarts(states, steps);
    if i > 0 {
      DeliveredIsReturned(states, steps, i - 1);
      StepOfRun(states, steps, i - 1);
      RunKeepsInv(states, steps, i - 1);
      if steps[i - 1].Reply? { AwaitedIsKey(states[i - 1], steps[i - 1].sid); }
    }
  }

  lemma AwaitedIsKey(s: System, sid: nat)
    requires Inv(s) && sid < |s.sessions| && s.sessions[sid].phase.Awaiting?
    ensures s.sessions[sid].phase.peer == s.sessions[sid].key
  {
    assert Boxed(s, s.sessions[sid]);
  }

  lemma RunStarts(states: seq<System>, steps: seq<Step>)
    requires Run(states, steps)
    ensures |states| == |steps| + 1 && states[0] == INIT
  {
  }

  /** In every run, what has been forwarded is exactly what was written, in order. */
  lemma {:induction false} ForwardedIsWritten(states: seq<System>, steps: seq<Step>, i: nat)
    requires Run(states, steps) && i < |states|
    ensures states[i].forwarded == Written(states, steps, i)
  {
    hide Run;
    RunStarts(states, steps);
    if i > 0 {
      ForwardedIsWritten(states, steps, i - 1);
      StepOfRun(states, steps, i - 1);
    }
  }

  /** In every run, what has arrived is exactly what was read, in order. */
  lemma {:induction false} ArrivalsAreRead(states: seq<System>, steps: seq<Step>, i: nat)
    requires Run(states, steps) && i < |states|
    ensures states[i].arrivals == Read(steps, i)
  {
    hide Run;
    RunStarts(states, steps);
    if i > 0 {
      ArrivalsAreRead(states, steps, i - 1);
      StepOfRun(states, steps, i - 1);
    }
  }

  /** The messages put into the inbox of a session in the first i steps: those that came while it
      held fewer than 128. */
  ghost function Accepted(states: seq<System>, steps: seq<Step>, sid: nat, i: nat): seq<Msg>
    requires i <= |steps| < |states|
  {
    if i == 0 then []
    else
      var before, s := Accepted(states, steps, sid, i - 1), states[i - 1];
      if steps[i - 1] == Push && s.hold.Some? && s.hold.value.0 == sid < |s.sessions| && |s.sessions[sid].inbox| < 128
      then before + [s.hold.value.1] else before
  }

  /** The messages its goroutine has taken out, whether writing them worked or not. */
  ghost function TakenOut(states: seq<System>, steps: seq<Step>, sid: nat, i: nat): seq<Msg>
    requires i <= |steps| < |states|
  {
    if i == 0 then []
    else
      var before, s := TakenOut(states, steps, sid, i - 1), states[i - 1];
      if steps[i - 1].Write? && steps[i - 1].sid == sid < |s.sessions| && s.sessions[sid].inbox != []
      then before + [s.sessions[sid].inbox[0]] else before
  }

  /** In every run, an inbox loses and reorders nothing: what was accepted is what was taken out
      followed by what is still there. */
  lemma {:induction false} InboxIsFifo(states: seq<System>, steps: seq<Step>, sid: nat, i: nat)
    requires Run(states, steps) && i < |states|
    ensures Accepted(states, steps, sid, i)
         == TakenOut(states, steps, sid, i) + if sid < |states[i].sessions| then states[i].sessions[sid].inbox else []
  {
    hide Run, Inv, Enabled, Apply;
    RunStarts(states, steps);
    if i > 0 {
      InboxIsFifo(states, steps, sid, i - 1);
      StepOfRun(states, steps, i - 1);
      InboxAfterStep(states[i - 1], steps[i - 1], sid);
      WriteHasMail(states[i - 1], steps[i - 1]);
      if sid < |states[i - 1].sessions| {
        Conserved(TakenOut(states, steps, sid, i - 1), states[i - 1].sessions[sid].inbox, states[i - 1].hold);
      }
    }
  }

  lemma WriteHasMail(s: System, step: Step)
    requires Enabled(s, step)
    ensures step.Write? ==> step.sid < |s.sessions| && s.sessions[step.sid].inbox != []
    ensures step == Push ==> s.hold.Some?
  {
  }

  lemma Conserved(taken: seq<Msg>, inbox: seq<Msg>, hold: Option<(nat, Msg)>)
    ensures inbox != [] ==> taken + inbox == taken + [inbox[0]] + inbox[1..]
    ensures hold.Some? ==> taken + inbox + [hold.value.1] == taken + (inbox + [hold.value.1])
  {
  }

  lemma InboxAfterStep(s: System, step: Step, sid: nat)
    requires Enabled(s, step)
    ensures |s.sessions| <= |Apply(s, step).sessions|
    ensures |s.sessions| <= sid < |Apply(s, step).sessions| ==> Apply(s, step).sessions[sid].inbox == []
    ensures sid < |s.sessions| ==>
              var inbox := s.sessions[sid].inbox;
              Apply(s, step).sessions[sid].inbox ==
                if step == Push && s.hold.value.0 == sid && |inbox| < 128 then inbox + [s.hold.value.1]
                else if step.Write? && step.sid == sid then inbox[1..]
                else inbox
  {
  }

  /** The step ends the session's goroutine, or decides its dial. */
  ghost predicate EndsOn(step: Step, sid: nat) {
    step.Reply? && step.sid == sid && !step.ok
  }

  ghost predicate DialsOn(step: Step, sid: nat, ok: bool) {
    if ok then step == DialOk(sid) else step == DialFail(sid)
  }

  lemma PhaseAfterStep(s: System, step: Step, sid: nat)
    requires Enabled(s, step) && sid < |Apply(s, step).sessions|
    ensures
      var p' := Apply(s, step).sessions[sid].phase;
      if sid >= |s.sessions| then p'.Dialing? && !EndsOn(step, sid) && !DialsOn(step, sid, true) && !DialsOn(step, sid, false)
      else
        var p := s.sessions[sid].phase;
        && (p'.Ended? <==> p.Ended? || EndsOn(step, sid)) && (p'.Failed? <==> p.Failed? || DialsOn(step, sid, false))
        && (p'.Dialing? <==> p.Dialing? && !DialsOn(step, sid, true) && !DialsOn(step, sid, false))
  {
  }

  /** In every run, a session has ended exactly if a read of its socket has failed, has failed exactly
      if its dial has, and is dialing exactly as long as neither dial outcome has come: a datagram
      that cannot be written, or a reply that cannot be sent back, ends nothing. */
  lemma {:induction false} PhaseIsHistory(states: seq<System>, steps: seq<Step>, sid: nat, i: nat)
    requires Run(states, steps) && i < |states| && sid < |states[i].sessions|
    ensures
      var p := states[i].sessions[sid].phase;
      && (p.Ended? <==> exists k :: 0 <= k < i && EndsOn(steps[k], sid))
      && (p.Failed? <==> exists k :: 0 <= k < i && DialsOn(steps[k], sid, false))
      && (p.Dialing? <==> forall k :: 0 <= k < i ==> !DialsOn(steps[k], sid, true) && !DialsOn(steps[k], sid, false))
  {
    hide Run, Enabled, Apply, EndsOn, DialsOn;
    RunStarts(states, steps);
    if i > 0 {
      StepOfRun(states, steps, i - 1);
      PhaseAfterStep(states[i - 1], steps[i - 1], sid);
      if sid < |states[i - 1].sessions| {
        PhaseIsHistory(states, steps, sid, i - 1);
      } else {
        NotYet(states, steps, sid, i - 1);
      }
    }
  }

  /** No step speaks of a session that is not there yet. */
  lemma {:induction false} NotYet(states: seq<System>, steps: seq<Step>, sid: nat, i: nat)
    requires Run(states, steps) && i < |states| && sid >= |states[i].sessions|
    ensures forall k :: 0 <= k < i ==> !EndsOn(steps[k], sid) && !DialsOn(steps[k], sid, true) && !DialsOn(steps[k], sid, false)
  {
    hide Run;
    RunStarts(states, steps);
    if i > 0 {
      StepOfRun(states, steps, i - 1);
      NotYet(states, steps, sid, i - 1);
    }
  }

  /** Both outcomes of each operation on a socket are possible whenever the goroutine is at it. */
  lemma OutcomesAreOpen(s: System, sid: nat, data: Bytes, ok: bool)
    requires Inv(s) && sid < |s.sessions| && data != []
    ensures s.sessions[sid].phase.Dialing? ==> Enabled(s, DialOk(sid)) && Enabled(s, DialFail(sid))
    ensures s.sessions[sid].phase.Ready? && s.sessions[sid].inbox != [] ==> Enabled(s, Write(sid, ok))
    ensures s.sessions[sid].phase.Awaiting? ==> Enabled(s, Reply(sid, data, true, ok)) && Enabled(s, Reply(sid, [], false, ok))
  {
  }

  /** In every run, a reply read from the socket opened for a client is written to that client
      alone. */
  lemma RepliesReachTheirClient(states: seq<System>, steps: seq<Step>, i: nat, d: nat)
    requires Run(states, steps) && i < |states| && d < |states[i].delivered|
    ensures
      var s := states[i];
      s.delivered[d].sid < |s.sessions| && s.delivered[d].to == s.sessions[s.delivered[d].sid].key
  {
    RunKeepsInv(states, steps, i);
  }

  /** In every run, no inbox holds more than 128 messages, and what it holds are arrivals of its
      own client in order. */
  lemma InboxesAreBounded(states: seq<System>, steps: seq<Step>, i: nat, k: nat)
    requires Run(states, steps) && i < |states| && k < |states[i].sessions|
    ensures
      var s := states[i];
      var e := s.sessions[k];
      && |e.inbox| <= 128
      && (forall j :: 0 <= j < |e.inbox| ==> Arrived(s, e.inbox[j], e.key))
      && (forall j, l :: 0 <= j < l < |e.inbox| ==> e.inbox[j].n < e.inbox[l].n)
  {
    RunKeepsInv(states, steps, i);
    assert Boxed(states[i], states[i].sessions[k]);
  }

  /** In every run, every forwarded datagram is an arrival of the client whose session it went
      through. */
  lemma ForwardsAreArrivals(states: seq<System>, steps: seq<Step>, i: nat, f: nat)
    requires Run(states, steps) && i < |states| && f < |states[i].forwarded|
    ensures
      var s := states[i];
      var a := s.forwarded[f];
      && a.msg.n < |s.arrivals| && s.arrivals[a.msg.n] == a.msg && a.sid < |s.sessions| && a.msg.peer == s.sessions[a.sid].key
  {
    RunKeepsInv(states, steps, i);
    assert WellForwarded(states[i], states[i].forwarded[f]);
  }

  /** In every run, one client's datagrams all go through one session, each at most once and in
      the order of arrival. */
  lemma ForwardsKeepOrder(states: seq<System>, steps: seq<Step>, i: nat, f: nat, g: nat)
    requires Run(states, steps) && i < |states| && f < g < |states[i].forwarded|
    ensures
      var a, b := states[i].forwarded[f], states[i].forwarded[g];
      a.msg.peer == b.msg.peer ==> a.sid == b.sid && a.msg.n < b.msg.n
  {
    RunKeepsInv(states, steps, i);
    assert WellForwarded(states[i], states[i].forwarded[f]) && WellForwarded(states[i], states[i].forwarded[g]);
  }

  /** The client's session has ended on a read error. */
  ghost predicate Stuck(s: System, peer: Addr) {
    peer in s.table && s.table[peer] < |s.sessions| && s.sessions[s.table[peer]].phase.Ended?
  }

  lemma StuckStep(s: System, step: Step, peer: Addr)
    requires Inv(s) && Enabled(s, step) && Stuck(s, peer)
    ensures Stuck(Apply(s, step), peer) && Apply(s, step).table[peer] == s.table[peer]
    ensures step.Write? && step.ok ==> s.sessions[step.sid].inbox[0].peer != peer
  {
    hide Held, Ordered, Addressed;
    if step.Write? { assert Boxed(s, s.sessions[step.sid]); }
  }

  // ---- the methods and the steps -----------------------------------------

  /** The inboxes of the sessions in the table, as UdpSessions.Inboxes has them. */
  ghost function Boxes(s: System): map<Addr, seq<Msg>>
    requires Tabled(s)
  {
    map k | k in s.table :: s.sessions[s.table[k]].inbox
  }

  lemma PushBoxes(s: System, peer: Addr)
    requires Tabled(s) && Enabled(s, Push) && peer in s.table && s.hold.value.0 == s.table[peer]
    ensures Tabled(Apply(s, Push)) && Boxes(Apply(s, Push)) == Boxes(s)[peer := Offer(Boxes(s)[peer], s.hold.value.1)]
  {
    hide Offer;
    TabledStep(s, Push);
  }

  lemma ReceiveBoxes(s: System, peer: Addr, data: Bytes)
    requires Tabled(s) && Enabled(s, Receive(peer, data))
    ensures
      var received := Apply(s, Receive(peer, data));
      && Tabled(received) && peer in received.table && received.hold == Some((received.table[peer], Msg(|s.arrivals|, peer, data)))
      && received.table[peer] < |received.sessions|
      && Boxes(received) == Boxes(s)[peer := if peer in s.table then Boxes(s)[peer] else []]
  {
    TabledStep(s, Receive(peer, data));
  }

  /** The two steps of enqueue, one after the other, change the inboxes as Enqueue does. */
  lemma ReceiveAndPushIsEnqueue(s: System, peer: Addr, data: Bytes)
    requires Inv(s) && s.hold.None? && data != []
    ensures
      var received := Apply(s, Receive(peer, data));
      Tabled(received) && Enabled(received, Push) && Tabled(Apply(received, Push))
      && Boxes(Apply(received, Push)) == Enqueued(Boxes(s), Msg(|s.arrivals|, peer, data))
  {
    hide Held, Ordered, Addressed, Boxed, Offer, Tabled, Apply;
    ReceiveBoxes(s, peer, data);
    PushBoxes(Apply(s, Receive(peer, data)), peer);
  }

  /** A failed dial changes the inboxes as Drop does. */
  lemma DialFailIsDrop(s: System, sid: nat)
    requires Inv(s) && Enabled(s, DialFail(sid))
    ensures Tabled(Apply(s, DialFail(sid))) && Boxes(Apply(s, DialFail(sid))) == Boxes(s) - {s.sessions[sid].key}
  {
    hide Held, Ordered, Addressed, Boxed;
    TabledStep(s, DialFail(sid));
  }

  // ---- which clients can still be served ---------------------------------

  ghost predicate Feasible(s: System, steps: seq<Step>)
    decreases |steps|
  {
    steps == [] || (Enabled(s, steps[0]) && Feasible(Apply(s, steps[0]), steps[1..]))
  }

  ghost function Later(s: System, steps: seq<Step>): System
    requires Feasible(s, steps)
    decreases |steps|
  {
    if steps == [] then s else Later(Apply(s, steps[0]), steps[1..])
  }

  /** A datagram of the client has been forwarded between the two states. */
  ghost predicate Served(s: System, s': System, peer: Addr) {
    exists f :: |s.forwarded| <= f < |s'.forwarded| && s'.forwarded[f].msg.peer == peer
  }

  ghost predicate Serves(s: System, steps: seq<Step>, peer: Addr) {
    Feasible(s, steps) && Served(s, Later(s, steps), peer)
  }

  ghost predicate CanBeServed(s: System, peer: Addr) {
    exists steps :: Serves(s, steps, peer)
  }

  lemma ForwardedGrows(s: System, step: Step)
    requires Enabled(s, step)
    ensures Apply(s, step).forwarded ==
            if step.Write? && step.ok then s.forwarded + [Forward(step.sid, s.sessions[step.sid].inbox[0])] else s.forwarded
  {
  }

  /** Once its session has ended on a read error, nothing the client sends is forwarded again. */
  lemma {:induction false} StuckForever(s: System, steps: seq<Step>, peer: Addr)
    requires Inv(s) && Feasible(s, steps) && Stuck(s, peer)
    ensures s.forwarded <= Later(s, steps).forwarded && !Served(s, Later(s, steps), peer)
    decreases |steps|
  {
    hide Stuck, Inv, Enabled, Apply;
    if steps != [] {
      var s' := Apply(s, steps[0]);
      StuckStep(s, steps[0], peer);
      StepKeepsInv(s, steps[0]);
      ForwardedGrows(s, steps[0]);
      StuckForever(s', steps[1..], peer);
      forall f | |s.forwarded| <= f < |Later(s, steps).forwarded| ensures Later(s, steps).forwarded[f].msg.peer != peer {
        assert f < |s'.forwarded| ==> Later(s', steps[1..]).forwarded[f] == s'.forwarded[f];
      }
    }
  }

  /** One step first, and then a way to be served. */
  lemma ServedAfter(s: System, step: Step, peer: Addr)
    requires Enabled(s, step) && CanBeServed(Apply(s, step), peer)
    ensures CanBeServed(s, peer)
  {
    hide Enabled, Apply;
    var s' := Apply(s, step);
    var rest :| Serves(s', rest, peer);
    ForwardedGrows(s, step);
    var steps := [step] + rest;
    assert steps[1..] == rest;
    var f :| |s'.forwarded| <= f < |Later(s', rest).forwarded| && Later(s', rest).forwarded[f].msg.peer == peer;
    assert Later(s, steps).forwarded[f].msg.peer == peer;
    assert Serves(s, steps, peer);
  }

  lemma ServedNow(s: System, peer: Addr)
    requires Inv(s) && peer in s.table && s.sessions[s.table[peer]].phase.Ready? && s.sessions[s.table[peer]].inbox != []
    ensures CanBeServed(s, peer)
  {
    hide Held, Ordered, Addressed;
    var sid := s.table[peer];
    assert Boxed(s, s.sessions[sid]);
    var steps := [Write(sid, true)];
    var s' := Apply(s, steps[0]);
    assert steps[1..] == [] && Feasible(s', steps[1..]) && Later(s, steps) == s';
    assert s'.forwarded[|s.forwarded|].msg.peer == peer;
    assert Serves(s, steps, peer);
  }

  /** A session that has mail and has not ended. */
  lemma ServedFromInbox(s: System, peer: Addr)
    requires Inv(s) && peer in s.table && !Stuck(s, peer) && s.sessions[s.table[peer]].inbox != []
    ensures CanBeServed(s, peer)
  {
    hide Held, Ordered, Addressed, CanBeServed;
    var sid := s.table[peer];
    match s.sessions[sid].phase
    case Ready => ServedNow(s, peer);
    case Dialing =>
      StepKeepsInv(s, DialOk(sid));
      ServedNow(Apply(s, DialOk(sid)), peer);
      ServedAfter(s, DialOk(sid), peer);
    case Awaiting(_) =>
      var step := Reply(sid, [], false, true);
      StepKeepsInv(s, step);
      ServedNow(Apply(s, step), peer);
      ServedAfter(s, step, peer);
    case _ => assert false;
  }

  /** A datagram of the client about to be put in its inbox. */
  lemma ServedFromHold(s: System, peer: Addr)
    requires Inv(s) && peer in s.table && !Stuck(s, peer) && s.hold.Some? && s.hold.value.0 == s.table[peer]
    ensures CanBeServed(s, peer)
  {
    hide Ordered, Addressed, CanBeServed;
    StepKeepsInv(s, Push);
    ServedFromInbox(Apply(s, Push), peer);
    ServedAfter(s, Push, peer);
  }

  lemma ServedFromListener(s: System, peer: Addr)
    requires Inv(s) && !Stuck(s, peer) && s.hold.None?
    ensures CanBeServed(s, peer)
  {
    hide Ordered, Addressed, CanBeServed;
    var step := Receive(peer, [0]);
    StepKeepsInv(s, step);
    ServedFromHold(Apply(s, step), peer);
    ServedAfter(s, step, peer);
  }

  /** run takes its client's key out of the table when the dial fails, and not when a read does.
      So in any state of a run a client can still be served, now or later, exactly when its
      session has not ended on a read error. */
  lemma CanBeServedIff(states: seq<System>, steps: seq<Step>, i: nat, peer: Addr)
    requires Run(states, steps) && i < |states|
    ensures CanBeServed(states[i], peer) <==> !Stuck(states[i], peer)
  {
    hide Inv, CanBeServed, Stuck, Enabled, Apply;
    var s := states[i];
    RunKeepsInv(states, steps, i);
    NotServedIfStuck(s, peer);
    if !Stuck(s, peer) {
      if s.hold.None? {
        ServedFromListener(s, peer);
      } else {
        PushDelays(s, peer);
      }
    }
  }

  /** The shortest way there, for any client: one datagram in, dialed and written, and a read that
      fails. */
  lemma StuckRun(peer: Addr) returns (states: seq<System>, steps: seq<Step>)
    ensures Run(states, steps) && |steps| == 5 && Stuck(states[5], peer) && !CanBeServed(states[5], peer)
  {
    hide CanBeServed;
    steps := [Receive(peer, [0]), Push, DialOk(0), Write(0, true), Reply(0, [], false, false)];
    var s1 := Apply(INIT, steps[0]);
    var s2 := Apply(s1, steps[1]);
    var s3 := Apply(s2, steps[2]);
    var s4 := Apply(s3, steps[3]);
    var s5 := Apply(s4, steps[4]);
    states := [INIT, s1, s2, s3, s4, s5];
    CanBeServedIff(states, steps, 5, peer);
  }

  lemma NotServedIfStuck(s: System, peer: Addr)
    requires Inv(s)
    ensures Stuck(s, peer) ==> !CanBeServed(s, peer)
  {
    hide Inv, Stuck, Enabled, Apply;
    if Stuck(s, peer) && CanBeServed(s, peer) {
      var steps :| Serves(s, steps, peer);
      StuckForever(s, steps, peer);
    }
  }

  lemma PushDelays(s: System, peer: Addr)
    requires Inv(s) && !Stuck(s, peer) && s.hold.Some?
    ensures CanBeServed(s, peer)
  {
    hide Ordered, Addressed, CanBeServed;
    StepKeepsInv(s, Push);
    ServedFromListener(Apply(s, Push), peer);
    ServedAfter(s, Push, peer);
  }

  /** A failed dial takes the key out, and the client's next datagram opens a new session. */
  lemma FailedDialIsRetried(s: System, sid: nat, data: Bytes)
    requires Inv(s) && Enabled(s, DialFail(sid)) && s.hold.None? && data != []
    ensures
      var peer := s.sessions[sid].key;
      var dropped := Apply(s, DialFail(sid));
      && peer !in dropped.table && dropped.hold.None?
      && (forall k | k in s.table && k != peer :: k in dropped.table && dropped.table[k] == s.table[k])
      && Apply(dropped, Receive(peer, data)).table[peer] == |s.sessions|
      && Apply(dropped, Receive(peer, data)).sessions[|s.sessions|].phase.Dialing?
  {
  }
}
