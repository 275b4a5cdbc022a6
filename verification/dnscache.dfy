/** The DNS cache and the resolver in front of it, with any number of resolutions in flight. */
module DnsCache {
  import opened Bytes
  import Net = IP
  import opened Options

  /** What the inner resolver returns. */
  datatype Answer = Ips(ips: seq<Bytes>) | Failed

  /** Default lifetime, in nanoseconds. */
  const FIVE_MINUTES := 300_000_000_000

  // ---- cache keys --------------------------------------------------------

  function Digit(d: nat): char
    requires d < 10
  {
    (d + '0' as int) as char
  }

  /** %d of a query type. */
  function Decimal(n: nat): (s: string)
    ensures |s| > 0 && forall c <- s :: '0' <= c <= '9'
  {
    if n < 10 then [Digit(n)] else Decimal(n / 10) + [Digit(n % 10)]
  }

  /** fmt.Sprintf("%s:%d", domain, qtype). */
  function CacheKey(domain: string, qtype: nat): string {
    domain + ":" + Decimal(qtype)
  }

  /** The number a string of decimal digits stands for. */
  function Number(s: string): int {
    if s == "" then 0 else 10 * Number(s[..|s| - 1]) + (s[|s| - 1] as int - '0' as int)
  }

  lemma {:induction false} DecimalIsNumber(n: nat)
    ensures Number(Decimal(n)) == n && (Decimal(n)[0] == '0' ==> n == 0)
  {
    var s := Decimal(n);
    assert s[|s| - 1] == Digit(n % 10);
    if n < 10 {
      assert s[..0] == "";
    } else {
      assert s[..|s| - 1] == Decimal(n / 10);
      DecimalIsNumber(n / 10);
    }
  }

  lemma DecimalInjective(m: nat, n: nat)
    requires Decimal(m) == Decimal(n)
    ensures m == n
  {
    DecimalIsNumber(m);
    DecimalIsNumber(n);
  }

  /** Different questions have different keys, even for domains with colons and digits. */
  lemma KeysNeverCollide(d: string, q: nat, d': string, q': nat)
    requires CacheKey(d, q) == CacheKey(d', q')
    ensures d == d' && q == q'
  {
    hide Decimal;
    var k, s, s' := CacheKey(d, q), Decimal(q), Decimal(q');
    assert k == d + ":" + s && k == d' + ":" + s';
    LastColon(d, s, k);
    LastColon(d', s', k);
    assert d == k[..|d|] && d' == k[..|d|];
    assert s == k[|d| + 1..] && s' == k[|d| + 1..];
    DecimalInjective(q, q');
  }

  /** The colon of a key is its last one. */
  lemma LastColon(d: string, s: string, k: string)
    requires k == d + ":" + s && forall c <- s :: c != ':'
    ensures k[|d|] == ':' && forall i :: |d| < i < |k| ==> k[i] != ':'
  {
    forall i | |d| < i < |k| ensures k[i] != ':' {
      assert k[i] == s[i - |d| - 1] && s[i - |d| - 1] in s;
    }
  }

  // ---- the cache ---------------------------------------------------------

  datatype Entry = Entry(ips: seq<Bytes>, expiresAt: nat)

  type Entries = map<string, Entry>

  function Store(e: Entries, ttl: nat, key: string, ips: seq<Bytes>, now: nat): Entries {
    e[key := Entry(ips, now + ttl)]
  }

  function Find(e: Entries, key: string, now: nat): Option<seq<Bytes>> {
    if key in e && now <= e[key].expiresAt then Some(e[key].ips) else None
  }

  function Cleaned(e: Entries, now: nat): Entries {
    map k | k in e && now <= e[k].expiresAt :: e[k]
  }

  /** net.ParseIP of ip.String(): the 16-byte form of the same address. */
  function Reparsed(ips: seq<Bytes>): (r: seq<Bytes>)
    ensures |r| == |ips|
  {
    seq(|ips|, i requires 0 <= i < |ips| => Net.To16(Net.Key(ips[i])))
  }

  /** A cached answer names the same addresses. */
  lemma ReparsedIsSame(ips: seq<Bytes>, i: nat)
    requires i < |ips| && (|ips[i]| == 4 || |ips[i]| == 16)
    ensures Net.Key(Reparsed(ips)[i]) == Net.Key(ips[i]) && |Reparsed(ips)[i]| == 16
  {
    assert (Net.V4_PREFIX + Net.Key(ips[i]))[..12] == Net.V4_PREFIX;
  }

  class Cache {
    var entries: Entries
    const ttl: nat

    /** NewCache: a lifetime that is not positive becomes five minutes. */
    constructor (ttl: int)
      ensures entries == map[] && this.ttl == if ttl <= 0 then 300_000_000_000 else ttl
    {
      entries := map[];
      this.ttl := if ttl <= 0 then FIVE_MINUTES else ttl;
    }

    method Set(key: string, ips: seq<Bytes>, now: nat)
      modifies this
      ensures entries == Store(old(entries), ttl, key, ips, now)
    {
      entries := entries[key := Entry(ips, now + ttl)];
    }

    method Get(key: string, now: nat) returns (r: Option<seq<Bytes>>)
      ensures r == Find(entries, key, now)
    {
      if key !in entries { return None; }
      var entry := entries[key];
      if now > entry.expiresAt { return None; }
      return Some(entry.ips);
    }

    /** One tick of cleanup, in map order. */
    method Cleanup(now: nat)
      modifies this
      ensures entries == Cleaned(old(entries), now)
    {
      ghost var before, visited: set<string> := entries, {};
      var todo := entries.Keys;
      while todo != {}
        invariant todo <= entries.Keys && todo == before.Keys - visited
        invariant entries == map k | k in before && (k !in visited || now <= before[k].expiresAt) :: before[k]
      {
        var k :| k in todo;
        if now > entries[k].expiresAt { entries := entries - {k}; }
        todo := todo - {k};
        visited := visited + {k};
      }
    }
  }

  class CacheResolver {
    const cache: Cache

    constructor (ttl: int)
      ensures fresh(cache) && cache.entries == map[] && cache.ttl == if ttl <= 0 then 300_000_000_000 else ttl
    {
      cache := new Cache(ttl);
    }

    /** Resolve, one call running alone; `inner` is what the inner resolver would say, and the
        call takes from `start` to `end`. */
    method Resolve(domain: string, qtype: nat, inner: Answer, start: nat, end: nat) returns (r: Answer)
      modifies cache
      ensures
        var key := CacheKey(domain, qtype);
        match Find(old(cache.entries), key, start)
        case Some(ips) => r == Ips(Reparsed(ips)) && cache.entries == old(cache.entries)
        case None =>
          r == inner && cache.entries == if inner.Failed? then old(cache.entries)
                                         else Store(old(cache.entries), cache.ttl, key, inner.ips, end)
    {
      var key := CacheKey(domain, qtype);
      var hit := cache.Get(key, start);
      if hit.Some? {
        var result: seq<Bytes> := [];
        for i := 0 to |hit.value|
          invariant result == Reparsed(hit.value)[..i]
        {
          result := result + [Net.To16(Net.Key(hit.value[i]))];
        }
        return Ips(result);
      }
      if inner.Failed? { return Failed; }
      cache.Set(key, inner.ips, end);
      return inner;
    }
  }

  // ---- concurrent resolutions --------------------------------------------

  datatype Question = Question(domain: string, qtype: nat)

  /** A successful answer of the inner resolver, and when it was stored. */
  datatype Success = Success(q: Question, ips: seq<Bytes>, at: nat)

  datatype System = System(entries: Entries, waiting: map<nat, Question>, log: seq<Success>, now: nat)

  datatype Step =
    | Ask(tid: nat, q: Question, at: nat)              // Resolve up to the cache lookup
    | Inner(tid: nat, answer: Answer, at: nat)         // the inner resolver returns
    | Clean(at: nat)

  ghost predicate Enabled(s: System, step: Step) {
    && s.now <= step.at
    && match step
       case Ask(tid, q, at) => tid !in s.waiting
       case Inner(tid, answer, at) => tid in s.waiting
       case Clean(at) => true
  }

  function KeyOf(q: Question): string {
    CacheKey(q.domain, q.qtype)
  }

  /** What the call returns in this step, if it returns. */
  ghost function Returned(s: System, step: Step): Option<Answer>
    requires Enabled(s, step)
  {
    match step
    case Ask(tid, q, at) =>
      var hit := Find(s.entries, KeyOf(q), at);
      if hit.Some? then Some(Ips(Reparsed(hit.value))) else None
    case Inner(tid, answer, at) => Some(answer)
    case Clean(at) => None
  }

  ghost function Apply(ttl: nat, s: System, step: Step): System
    requires Enabled(s, step)
  {
    match step
    case Ask(tid, q, at) =>
      if Find(s.entries, KeyOf(q), at).Some? then s.(now := at) else s.(now := at, waiting := s.waiting[tid := q])
    case Inner(tid, answer, at) =>
      var q := s.waiting[tid];
      var s' := s.(now := at, waiting := s.waiting - {tid});
      if answer.Failed? then s'
      else s'.(entries := Store(s.entries, ttl, KeyOf(q), answer.ips, at), log := s.log + [Success(q, answer.ips, at)])
    case Clean(at) => s.(now := at, entries := Cleaned(s.entries, at))
  }

  /** The i-th success is the last one so far for its question. */
  ghost predicate Latest(log: seq<Success>, i: int) {
    0 <= i < |log| && forall j :: i < j < |log| ==> log[j].q != log[i].q
  }

  /** The cache holds nothing but latest successes, and all of those still alive. */
  ghost predicate Inv(ttl: nat, s: System) {
    && (forall k | k in s.entries :: exists i :: Latest(s.log, i) && KeyOf(s.log[i].q) == k
                                                 && s.entries[k] == Entry(s.log[i].ips, s.log[i].at + ttl))
    && (forall i :: Latest(s.log, i) && s.now <= s.log[i].at + ttl ==>
          KeyOf(s.log[i].q) in s.entries && s.entries[KeyOf(s.log[i].q)] == Entry(s.log[i].ips, s.log[i].at + ttl))
    && (forall i :: 0 <= i < |s.log| ==> s.log[i].at <= s.now)
  }

  lemma LatestAfter(log: seq<Success>, more: Success, i: int)
    ensures Latest(log + [more], i) <==> i == |log| || (Latest(log, i) && log[i].q != more.q)
  {
    var longer := log + [more];
    if Latest(longer, i) && i != |log| { assert longer[|log|] == more && forall j :: i < j < |log| ==> longer[j] == log[j]; }
    if Latest(log, i) && log[i].q != more.q {
      forall j | i < j < |longer| ensures longer[j].q != longer[i].q { if j < |log| { assert longer[j] == log[j]; } }
    }
  }

  lemma StoreKeepsInv(ttl: nat, s: System, tid: nat, ips: seq<Bytes>, at: nat)
    requires Inv(ttl, s) && Enabled(s, Inner(tid, Ips(ips), at))
    ensures Inv(ttl, Apply(ttl, s, Inner(tid, Ips(ips), at)))
  {
    hide CacheKey, Latest;
    var s' := Apply(ttl, s, Inner(tid, Ips(ips), at));
    var more := Success(s.waiting[tid], ips, at);
    forall i ensures Latest(s'.log, i) <==> i == |s.log| || (0 <= i < |s.log| && Latest(s.log, i) && s.log[i].q != more.q) {
      LatestAfter(s.log, more, i);
      if Latest(s.log, i) { InRange(s.log, i); }
    }
    forall k | k in s'.entries
      ensures exists i :: Latest(s'.log, i) && KeyOf(s'.log[i].q) == k && s'.entries[k] == Entry(s'.log[i].ips, s'.log[i].at + ttl)
    {
      if k == KeyOf(more.q) {
        assert Latest(s'.log, |s.log|) && s'.log[|s.log|] == more;
      } else {
        forall i | Latest(s.log, i) ensures 0 <= i < |s.log| { InRange(s.log, i); }
        var i :| Latest(s.log, i) && KeyOf(s.log[i].q) == k && s.entries[k] == Entry(s.log[i].ips, s.log[i].at + ttl);
        assert Latest(s'.log, i) && s'.log[i] == s.log[i];
      }
    }
    forall i | Latest(s'.log, i) && s'.now <= s'.log[i].at + ttl
      ensures KeyOf(s'.log[i].q) in s'.entries && s'.entries[KeyOf(s'.log[i].q)] == Entry(s'.log[i].ips, s'.log[i].at + ttl)
    {
      if i < |s.log| && KeyOf(s.log[i].q) == KeyOf(more.q) {
        KeysNeverCollide(s.log[i].q.domain, s.log[i].q.qtype, more.q.domain, more.q.qtype);
      }
    }
  }

  lemma InRange(log: seq<Success>, i: int)
    requires Latest(log, i)
    ensures 0 <= i < |log|
  {
  }

  lemma StepKeepsInv(ttl: nat, s: System, step: Step)
    requires Inv(ttl, s) && Enabled(s, step)
    ensures Inv(ttl, Apply(ttl, s, step))
  {
    hide KeyOf;
    if step.Inner? && step.answer.Ips? {
      StoreKeepsInv(ttl, s, step.tid, step.answer.ips, step.at);
    }
  }

  ghost predicate Run(ttl: nat, states: seq<System>, steps: seq<Step>) {
    && |states| == |steps| + 1 && states[0] == System(map[], map[], [], 0)
    && forall i :: 0 <= i < |steps| ==> Enabled(states[i], steps[i]) && states[i + 1] == Apply(ttl, states[i], steps[i])
  }

  lemma {:induction false} RunKeepsInv(ttl: nat, states: seq<System>, steps: seq<Step>, i: nat)
    requires Run(ttl, states, steps) && i < |states|
    ensures Inv(ttl, states[i])
  {
    if i > 0 {
      hide Enabled, Apply, Inv;
      RunKeepsInv(ttl, states, steps, i - 1);
      StepKeepsInv(ttl, states[i - 1], steps[i - 1]);
    }
  }

  /** In every run, a call that returns from the cache returns the last successful answer
      stored for exactly its own domain and type, no more than one ttl old; a call that goes
      to the inner resolver returns what that says; and a question with a live answer is
      never asked again. */
  lemma ResolveReturnsFreshOrInner(ttl: nat, states: seq<System>, steps: seq<Step>, n: nat)
    requires Run(ttl, states, steps) && n < |steps|
    ensures
      var s, step := states[n], steps[n];
      && (step.Inner? ==> Returned(s, step) == Some(step.answer))
      && (step.Ask? && Returned(s, step).Some? ==>
            exists i :: Latest(s.log, i) && s.log[i].q == step.q && step.at <= s.log[i].at + ttl
                        && Returned(s, step).value == Ips(Reparsed(s.log[i].ips)))
      && (step.Ask? && Returned(s, step).None? ==> forall i :: Latest(s.log, i) && s.log[i].q == step.q ==> step.at > s.log[i].at + ttl)
  {
    RunKeepsInv(ttl, states, steps, n);
    hide CacheKey, Latest, Reparsed;
    var s, step := states[n], steps[n];
    if step.Ask? && Returned(s, step).Some? {
      var i :| Latest(s.log, i) && KeyOf(s.log[i].q) == KeyOf(step.q)
               && s.entries[KeyOf(step.q)] == Entry(s.log[i].ips, s.log[i].at + ttl);
      KeysNeverCollide(s.log[i].q.domain, s.log[i].q.qtype, step.q.domain, step.q.qtype);
    }
  }

  // ---- what the log is, and what a sweep leaves --------------------------

  lemma StepOfRun(ttl: nat, states: seq<System>, steps: seq<Step>, k: nat)
    requires Run(ttl, states, steps) && k < |steps|
    ensures |states| == |steps| + 1 && Enabled(states[k], steps[k]) && states[k + 1] == Apply(ttl, states[k], steps[k])
  {
  }

  /** The successful answers of the inner resolver in the first i steps, each for the question its
      caller was waiting on, with its time. */
  ghost function Successes(states: seq<System>, steps: seq<Step>, i: nat): seq<Success>
    requires i <= |steps| < |states|
  {
    if i == 0 then []
    else
      var before := Successes(states, steps, i - 1);
      match steps[i - 1]
      case Inner(tid, answer, at) =>
        if answer.Ips? && tid in states[i - 1].waiting then before + [Success(states[i - 1].waiting[tid], answer.ips, at)] else before
      case _ => before
  }

  lemma {:induction false} LogIsTheSteps(ttl: nat, states: seq<System>, steps: seq<Step>, i: nat)
    requires Run(ttl, states, steps) && i < |states|
    ensures states[i].log == Successes(states, steps, i)
  {
    hide Run, Find, CacheKey, Cleaned, Store;
    RunStarts(ttl, states, steps);
    if i > 0 {
      LogIsTheSteps(ttl, states, steps, i - 1);
      StepOfRun(ttl, states, steps, i - 1);
    }
  }

  lemma RunStarts(ttl: nat, states: seq<System>, steps: seq<Step>)
    requires Run(ttl, states, steps)
    ensures |states| == |steps| + 1 && states[0] == System(map[], map[], [], 0)
  {
  }

  /** And the question a caller is waiting on is the one it last asked. */
  lemma {:induction false} WaitingIsAsked(ttl: nat, states: seq<System>, steps: seq<Step>, i: nat, tid: nat) returns (k: nat)
    requires Run(ttl, states, steps) && i < |states| && tid in states[i].waiting
    ensures k < i && steps[k].Ask? && steps[k].tid == tid && steps[k].q == states[i].waiting[tid]
    ensures forall j :: k < j < i ==> !(steps[j].Inner? && steps[j].tid == tid) && !(steps[j].Ask? && steps[j].tid == tid)
  {
    hide Run, Find, CacheKey, Cleaned, Store;
    RunStarts(ttl, states, steps);
    StepOfRun(ttl, states, steps, i - 1);
    if tid in states[i - 1].waiting {
      k := WaitingIsAsked(ttl, states, steps, i - 1, tid);
    } else {
      k := i - 1;
    }
  }

  /** In every run, after a cleanup the cache is exactly the latest successes that are no older than
      the lifetime. */
  lemma CleanupLeavesTheLive(ttl: nat, states: seq<System>, steps: seq<Step>, n: nat, k: string)
    requires Run(ttl, states, steps) && n < |steps| && steps[n].Clean?
    ensures k in states[n + 1].entries <==>
            exists i :: Latest(states[n].log, i) && KeyOf(states[n].log[i].q) == k && steps[n].at <= states[n].log[i].at + ttl
    ensures forall i | Latest(states[n].log, i) && KeyOf(states[n].log[i].q) == k && steps[n].at <= states[n].log[i].at + ttl ::
              k in states[n + 1].entries && states[n + 1].entries[k].ips == states[n].log[i].ips
  {
    hide Run, CacheKey, Latest;
    RunStarts(ttl, states, steps);
    StepOfRun(ttl, states, steps, n);
    RunKeepsInv(ttl, states, steps, n);
    var s, s' := states[n], states[n + 1];
    forall i | Latest(s.log, i) ensures 0 <= i < |s.log| { InRange(s.log, i); }
    if k in s'.entries {
      var i :| Latest(s.log, i) && KeyOf(s.log[i].q) == k && s.entries[k] == Entry(s.log[i].ips, s.log[i].at + ttl);
    }
  }

  /** The two steps of a miss, run alone, do what Resolve's contract says, and so does the one of a
      hit. */
  lemma StepsAreResolve(ttl: nat, s: System, tid: nat, q: Question, start: nat, answer: Answer, end: nat)
    requires s.now <= start <= end && tid !in s.waiting
    ensures Enabled(s, Ask(tid, q, start))
    ensures
      var asked, hit := Apply(ttl, s, Ask(tid, q, start)), Find(s.entries, CacheKey(q.domain, q.qtype), start);
      if hit.Some? then Returned(s, Ask(tid, q, start)) == Some(Ips(Reparsed(hit.value))) && asked.entries == s.entries
      else
        && Returned(s, Ask(tid, q, start)).None? && Enabled(asked, Inner(tid, answer, end))
        && Returned(asked, Inner(tid, answer, end)) == Some(answer)
        && Apply(ttl, asked, Inner(tid, answer, end)).entries ==
             if answer.Failed? then s.entries else Store(s.entries, ttl, CacheKey(q.domain, q.qtype), answer.ips, end)
  {
    hide CacheKey, Store;
  }

  // ---- cleanup is invisible ----------------------------------------------

  datatype Op = Put(key: string, ips: seq<Bytes>, at: nat) | Lookup(key: string, at: nat) | Sweep(at: nat)

  function Do(e: Entries, ttl: nat, op: Op): Entries {
    match op
    case Put(key, ips, at) => Store(e, ttl, key, ips, at)
    case Lookup(_, _) => e
    case Sweep(at) => Cleaned(e, at)
  }

  /** What the lookups of a sequence of operations see. */
  function Seen(e: Entries, ttl: nat, ops: seq<Op>): seq<Option<seq<Bytes>>>
    decreases |ops|
  {
    if ops == [] then []
    else
      var rest := Seen(Do(e, ttl, ops[0]), ttl, ops[1..]);
      if ops[0].Lookup? then [Find(e, ops[0].key, ops[0].at)] + rest else rest
  }

  function NoSweeps(ops: seq<Op>): seq<Op> {
    if ops == [] then []
    else if ops[0].Sweep? then NoSweeps(ops[1..])
    else [ops[0]] + NoSweeps(ops[1..])
  }

  ghost predicate InOrder(now: nat, ops: seq<Op>)
    decreases |ops|
  {
    ops == [] || (now <= ops[0].at && InOrder(ops[0].at, ops[1..]))
  }

  /** The two caches agree on everything not yet expired. */
  ghost predicate AgreeFrom(now: nat, e: Entries, e': Entries) {
    forall k :: (k in e && now <= e[k].expiresAt <==> k in e' && now <= e'[k].expiresAt)
                && (k in e && now <= e[k].expiresAt ==> e[k] == e'[k])
  }

  lemma {:induction false} SweepsAreInvisibleFrom(now: nat, e: Entries, e': Entries, ttl: nat, ops: seq<Op>)
    requires AgreeFrom(now, e, e') && InOrder(now, ops)
    ensures Seen(e, ttl, ops) == Seen(e', ttl, NoSweeps(ops))
    decreases |ops|
  {
    if ops != [] {
      var op := ops[0];
      if op.Sweep? {
        assert AgreeFrom(op.at, Cleaned(e, op.at), e');
        SweepsAreInvisibleFrom(op.at, Cleaned(e, op.at), e', ttl, ops[1..]);
      } else {
        assert AgreeFrom(op.at, Do(e, ttl, op), Do(e', ttl, op));
        SweepsAreInvisibleFrom(op.at, Do(e, ttl, op), Do(e', ttl, op), ttl, ops[1..]);
        assert NoSweeps(ops) == [op] + NoSweeps(ops[1..]) && NoSweeps(ops)[1..] == NoSweeps(ops[1..]);
        assert op.Lookup? ==> Find(e, op.key, op.at) == Find(e', op.key, op.at);
      }
    }
  }

  /** Leaving every cleanup out of a run changes nothing that any lookup returns. */
  lemma CleanupIsInvisible(e: Entries, ttl: nat, ops: seq<Op>)
    requires InOrder(0, ops)
    ensures Seen(e, ttl, ops) == Seen(e, ttl, NoSweeps(ops))
  {
    SweepsAreInvisibleFrom(0, e, e, ttl, ops);
  }
}
