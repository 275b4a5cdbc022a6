/** The proxy registry and the groups that recurse through it: failover groups try their
    members in order, selectors forward to their current choice. */
module Groups {
  import opened Options

  /** A registered proxy: a real one, or a group that names others. */
  datatype Node =
    | Leaf(id: string)
    | Failover(members: seq<string>)
    | Selector(choice: string)

  type Graph = map<string, Node>

  function LowerChar(c: char): char {
    if 'A' <= c <= 'Z' then (c as int + 32) as char else c
  }

  function UpperChar(c: char): char {
    if 'a' <= c <= 'z' then (c as int - 32) as char else c
  }

  /** strings.ToLower and strings.ToUpper on ASCII names. */
  function Lower(s: string): (r: string)
    ensures |r| == |s|
  {
    seq(|s|, i requires 0 <= i < |s| => LowerChar(s[i]))
  }

  function Upper(s: string): (r: string)
    ensures |r| == |s|
  {
    seq(|s|, i requires 0 <= i < |s| => UpperChar(s[i]))
  }

  const DIRECT := Leaf("DIRECT")
  const REJECT := Leaf("REJECT")

  /** Registry.Get. */
  function Get(g: Graph, name: string): Option<Node> {
    if Upper(name) == "DIRECT" then Some(DIRECT)
    else if Upper(name) == "REJECT" then Some(REJECT)
    else if Lower(name) in g then Some(g[Lower(name)])
    else None
  }

  /** Lookups do not see case. */
  lemma GetIgnoresCase(g: Graph, name: string)
    ensures Get(g, Lower(name)) == Get(g, name)
  {
    assert Upper(Lower(name)) == Upper(name);
    assert Lower(Lower(name)) == Lower(name);
  }

  /** The two built-in proxies are found under their names in any case, whatever is registered. */
  lemma BuiltIns(g: Graph, name: string)
    ensures Lower(name) == "direct" ==> Get(g, name) == Some(Leaf("DIRECT"))
    ensures Lower(name) == "reject" ==> Get(g, name) == Some(Leaf("REJECT"))
    ensures Lower(name) != "direct" && Lower(name) != "reject" ==>
              Get(g, name) == if Lower(name) in g then Some(g[Lower(name)]) else None
  {
    assert Upper(Lower(name)) == Upper(name) && Lower(Upper(name)) == Lower(name);
    assert Upper("direct") == "DIRECT" && Upper("reject") == "REJECT";
    assert Lower("DIRECT") == "direct" && Lower("REJECT") == "reject";
  }

  /** What is registered under a name is found under it in any case, until it is taken out; other names
      are not touched. */
  lemma RegisteredIsFound(g: Graph, name: string, p: Node, other: string)
    requires Lower(name) != "direct" && Lower(name) != "reject"
    ensures Get(g[Lower(name) := p], other) == if Lower(other) == Lower(name) then Some(p) else Get(g, other)
    ensures Get(g - {Lower(name)}, other) == if Lower(other) == Lower(name) then None else Get(g, other)
  {
    hide Lower, Upper;
    BuiltIns(g, other);
    BuiltIns(g[Lower(name) := p], other);
    BuiltIns(g - {Lower(name)}, other);
  }

  function References(n: Node): seq<string> {
    match n
    case Leaf(_) => []
    case Failover(members) => members
    case Selector(choice) => [choice]
  }

  predicate Special(name: string) {
    Upper(name) == "DIRECT" || Upper(name) == "REJECT"
  }

  /** Every reference leads to a node of smaller rank. */
  ghost predicate Acyclic(g: Graph, rank: map<string, nat>) {
    rank.Keys == g.Keys &&
    forall k, i | k in g && 0 <= i < |References(g[k])| ::
      var m := References(g[k])[i];
      !Special(m) && Lower(m) in g ==> rank[Lower(m)] < rank[k]
  }

  ghost function RankOf(g: Graph, rank: map<string, nat>, name: string): nat
    requires rank.Keys == g.Keys
  {
    if !Special(name) && Lower(name) in g then 1 + rank[Lower(name)] else 0
  }

  /** The real proxies under a name, depth first, left to right. */
  ghost function Flatten(g: Graph, rank: map<string, nat>, name: string): seq<string>
    requires Acyclic(g, rank)
    decreases RankOf(g, rank, name), 0, 0
  {
    match Get(g, name)
    case None => []
    case Some(Leaf(id)) => [id]
    case Some(Failover(members)) =>
      MembersRank(g, rank, Lower(name));
      FlattenAll(g, rank, Lower(name), members)
    case Some(Selector(choice)) =>
      assert References(g[Lower(name)])[0] == choice;
      Flatten(g, rank, choice)
  }

  ghost function FlattenAll(g: Graph, rank: map<string, nat>, k: string, members: seq<string>): seq<string>
    requires Acyclic(g, rank) && k in g
    requires forall m <- members :: RankOf(g, rank, m) <= rank[k]
    decreases rank[k], 1, |members|
  {
    if members == [] then []
    else FlattenAll(g, rank, k, members[..|members| - 1]) + Flatten(g, rank, members[|members| - 1])
  }

  /** Whether the n-th dial of a call, to this proxy, succeeds. REJECT never does. */
  predicate Succeeds(up: (nat, string) -> bool, n: nat, id: string) {
    id != "REJECT" && up(n, id)
  }

  /** The dials made: everything up to and including the first success. */
  ghost predicate StopsAtFirstSuccess(list: seq<string>, up: (nat, string) -> bool, start: nat,
                                      attempts: seq<string>, conn: Option<string>)
  {
    && attempts <= list
    && (forall i :: 0 <= i < |attempts| - 1 ==> !Succeeds(up, start + i, attempts[i]))
    && (conn.None? ==> attempts == list && forall i :: 0 <= i < |list| ==> !Succeeds(up, start + i, list[i]))
    && (conn.Some? ==> attempts != [] && conn.value == attempts[|attempts| - 1] && Succeeds(up, start + |attempts| - 1, conn.value))
  }

  /** StopsAtFirstSuccess pins down both the dials and the result. */
  lemma FirstSuccessIsUnique(list: seq<string>, up: (nat, string) -> bool, start: nat,
                             a: seq<string>, c: Option<string>, a': seq<string>, c': Option<string>)
    requires StopsAtFirstSuccess(list, up, start, a, c) && StopsAtFirstSuccess(list, up, start, a', c')
    ensures a == a' && c == c'
  {
    assert forall i :: 0 <= i < |a| ==> a[i] == list[i];
    assert forall i :: 0 <= i < |a'| ==> a'[i] == list[i];
  }

  /** In other words: the dials go down the list to the first proxy that is not REJECT and is up, which
      is the result; if there is none, all have been dialed and there is no connection. */
  lemma FirstSuccessIs(list: seq<string>, up: (nat, string) -> bool, start: nat, attempts: seq<string>, conn: Option<string>, k: nat)
    requires StopsAtFirstSuccess(list, up, start, attempts, conn) && k <= |list|
    requires forall i :: 0 <= i < k ==> list[i] == "REJECT" || !up(start + i, list[i])
    ensures k == |list| ==> attempts == list && conn == None
    ensures k < |list| && list[k] != "REJECT" && up(start + k, list[k]) ==> attempts == list[..k + 1] && conn == Some(list[k])
  {
    assert forall i :: 0 <= i < |attempts| ==> attempts[i] == list[i];
  }

  lemma MembersRank(g: Graph, rank: map<string, nat>, k: string)
    requires Acyclic(g, rank) && k in g && g[k].Failover?
    ensures forall m <- g[k].members :: RankOf(g, rank, m) <= rank[k]
  {
    forall m | m in g[k].members ensures RankOf(g, rank, m) <= rank[k] {
      var i :| 0 <= i < |g[k].members| && g[k].members[i] == m;
      assert References(g[k])[i] == m;
    }
  }

  /** Failing through one list and then stopping somewhere in the next is stopping in both. */
  lemma FallThrough(list: seq<string>, next: seq<string>, up: (nat, string) -> bool, start: nat, a: seq<string>, c: Option<string>)
    requires forall i :: 0 <= i < |list| ==> !Succeeds(up, start + i, list[i])
    requires StopsAtFirstSuccess(next, up, start + |list|, a, c)
    ensures StopsAtFirstSuccess(list + next, up, start, list + a, c)
  {
    hide Succeeds;
    var both := list + a;
    assert both <= list + next;
    forall i | 0 <= i < |both| - 1 ensures !Succeeds(up, start + i, both[i]) {
      if i >= |list| { assert both[i] == a[i - |list|]; }
    }
    if c.None? {
      forall i | 0 <= i < |list + next| ensures !Succeeds(up, start + i, (list + next)[i]) {
        if i >= |list| { assert (list + next)[i] == next[i - |list|]; }
      }
    }
  }

  class Registry {
    var proxies: Graph

    constructor ()
      ensures proxies == map[]
    {
      proxies := map[];
    }

    method Register(name: string, p: Node)
      modifies this
      ensures proxies == old(proxies)[Lower(name) := p]
    {
      proxies := proxies[Lower(name) := p];
    }

    method Unregister(name: string)
      modifies this
      ensures proxies == old(proxies) - {Lower(name)}
    {
      proxies := proxies - {Lower(name)};
    }

    /** Selector.SetChoice on the selector registered as key: refused when the name resolves to
        nothing; otherwise the lower-case name is stored, and it resolves to the same proxy. */
    method SetChoice(key: string, name: string) returns (ok: bool)
      requires key in proxies && proxies[key].Selector?
      modifies this
      ensures ok <==> Get(old(proxies), name).Some?
      ensures proxies == if ok then old(proxies)[key := Selector(Lower(name))] else old(proxies)
      ensures ok ==> Get(old(proxies), Lower(name)) == Get(old(proxies), name)
    {
      GetIgnoresCase(proxies, name);
      ok := Get(proxies, name).Some?;
      if ok { proxies := proxies[key := Selector(Lower(name))]; }
    }

    /** Connect on whatever the name resolves to. It terminates because ranks fall; it dials
        exactly the flattened leaf sequence up to the first success, and returns that leaf. */
    method Connect(name: string, ghost rank: map<string, nat>, up: (nat, string) -> bool, start: nat)
      returns (conn: Option<string>, attempts: seq<string>)
      requires Acyclic(proxies, rank)
      ensures StopsAtFirstSuccess(Flatten(proxies, rank, name), up, start, attempts, conn)
      decreases RankOf(proxies, rank, name), 0
    {
      var p := Get(proxies, name);
      if p.None? { return None, []; }
      match p.value
      case Leaf(id) =>
        attempts := [id];
        conn := if id != "REJECT" && up(start, id) then Some(id) else None;
      case Failover(members) =>
        MembersRank(proxies, rank, Lower(name));
        conn, attempts := ConnectFailover(Lower(name), rank, up, start);
      case Selector(choice) =>
        assert References(p.value)[0] == choice;
        conn, attempts := Connect(choice, rank, up, start);
    }

    /** FailoverGroup.Connect on the group registered as key. */
    method ConnectFailover(key: string, ghost rank: map<string, nat>, up: (nat, string) -> bool, start: nat)
      returns (conn: Option<string>, attempts: seq<string>)
      requires Acyclic(proxies, rank) && key in proxies && proxies[key].Failover?
      requires forall m <- proxies[key].members :: RankOf(proxies, rank, m) <= rank[key]
      ensures StopsAtFirstSuccess(FlattenAll(proxies, rank, key, proxies[key].members), up, start, attempts, conn)
      decreases rank[key], 1
    {
      hide Succeeds, StopsAtFirstSuccess, Flatten;
      var members := proxies[key].members;
      attempts := [];
      NothingYet(up, start);
      for i := 0 to |members|
        invariant attempts == FlattenAll(proxies, rank, key, members[..i])
        invariant forall j :: 0 <= j < |attempts| ==> !Succeeds(up, start + j, attempts[j])
      {
        assert members[..i + 1][..i] == members[..i];
        var c, more := Connect(members[i], rank, up, start + |attempts|);
        FallThrough(attempts, Flatten(proxies, rank, members[i]), up, start, more, c);
        attempts := attempts + more;
        if c.Some? {
          StopEarly(proxies, rank, key, members, i + 1, up, start, attempts, c);
          assert members[..|members|] == members;
          return c, attempts;
        }
        AllFailed(FlattenAll(proxies, rank, key, members[..i + 1]), up, start, attempts);
      }
      assert members[..|members|] == members;
      NoneLeft(attempts, up, start);
      conn := None;
    }
  }

  lemma NothingYet(up: (nat, string) -> bool, start: nat)
    ensures StopsAtFirstSuccess([], up, start, [], None)
  {
  }

  lemma AllFailed(list: seq<string>, up: (nat, string) -> bool, start: nat, attempts: seq<string>)
    requires StopsAtFirstSuccess(list, up, start, attempts, None)
    ensures attempts == list && forall j :: 0 <= j < |attempts| ==> !Succeeds(up, start + j, attempts[j])
  {
  }

  lemma NoneLeft(list: seq<string>, up: (nat, string) -> bool, start: nat)
    requires forall j :: 0 <= j < |list| ==> !Succeeds(up, start + j, list[j])
    ensures StopsAtFirstSuccess(list, up, start, list, None)
  {
  }

  /** Members after the one that succeeded do not matter. */
  lemma {:induction false} StopEarly(g: Graph, rank: map<string, nat>, k: string, members: seq<string>, n: nat,
                                     up: (nat, string) -> bool, start: nat, a: seq<string>, c: Option<string>)
    requires Acyclic(g, rank) && k in g && n <= |members| && c.Some?
    requires forall m <- members :: RankOf(g, rank, m) <= rank[k]
    requires StopsAtFirstSuccess(FlattenAll(g, rank, k, members[..n]), up, start, a, c)
    ensures StopsAtFirstSuccess(FlattenAll(g, rank, k, members), up, start, a, c)
    decreases |members|
  {
    if n == |members| {
      assert members[..n] == members;
    } else {
      var front := members[..|members| - 1];
      assert front[..n] == members[..n];
      StopEarly(g, rank, k, front, n, up, start, a, c);
      assert a <= FlattenAll(g, rank, k, front) <= FlattenAll(g, rank, k, members);
    }
  }

  // ---- the flattening is a property of the graph -------------------------

  lemma {:induction false} FlattenIgnoresRank(g: Graph, r: map<string, nat>, r': map<string, nat>, name: string)
    requires Acyclic(g, r) && Acyclic(g, r')
    ensures Flatten(g, r, name) == Flatten(g, r', name)
    decreases RankOf(g, r, name), 0, 0
  {
    hide Upper, Lower;
    match Get(g, name)
    case Some(Failover(members)) =>
      MembersRank(g, r, Lower(name));
      MembersRank(g, r', Lower(name));
      FlattenAllIgnoresRank(g, r, r', Lower(name), members);
    case Some(Selector(choice)) =>
      assert References(g[Lower(name)])[0] == choice;
      FlattenIgnoresRank(g, r, r', choice);
    case _ =>
  }

  lemma {:induction false} FlattenAllIgnoresRank(g: Graph, r: map<string, nat>, r': map<string, nat>, k: string, members: seq<string>)
    requires Acyclic(g, r) && Acyclic(g, r') && k in g
    requires forall m <- members :: RankOf(g, r, m) <= r[k] && RankOf(g, r', m) <= r'[k]
    ensures FlattenAll(g, r, k, members) == FlattenAll(g, r', k, members)
    decreases r[k], 1, |members|
  {
    hide Upper, Lower, Acyclic, Get, RankOf;
    if members != [] {
      FlattenAllIgnoresRank(g, r, r', k, members[..|members| - 1]);
      FlattenIgnoresRank(g, r, r', members[|members| - 1]);
    }
  }

  // ---- what the flattening is --------------------------------------------

  /** REJECT is dialed and never answers, alone or through any group. */
  lemma RejectNeverConnects(g: Graph, rank: map<string, nat>, name: string, up: (nat, string) -> bool, start: nat,
                            attempts: seq<string>, conn: Option<string>)
    requires Acyclic(g, rank) && StopsAtFirstSuccess(Flatten(g, rank, name), up, start, attempts, conn)
    ensures conn != Some("REJECT")
    ensures Lower(name) == "reject" ==> attempts == ["REJECT"] && conn == None
  {
    hide Acyclic, Lower;
    BuiltIns(g, name);
  }

  /** A proxy flattens to itself, an unknown name to nothing, a selector to what its choice does. */
  lemma FlattenOne(g: Graph, rank: map<string, nat>, name: string)
    requires Acyclic(g, rank)
    ensures Get(g, name).None? ==> Flatten(g, rank, name) == []
    ensures forall id | Get(g, name) == Some(Leaf(id)) :: Flatten(g, rank, name) == [id]
    ensures forall choice | Get(g, name) == Some(Selector(choice)) :: Flatten(g, rank, name) == Flatten(g, rank, choice)
    ensures forall members | Get(g, name) == Some(Failover(members)) ::
              Lower(name) in g && (forall m <- members :: RankOf(g, rank, m) <= rank[Lower(name)])
              && Flatten(g, rank, name) == FlattenAll(g, rank, Lower(name), members)
  {
    hide Lower;
    if Get(g, name).Some? && Get(g, name).value.Failover? { MembersRank(g, rank, Lower(name)); }
  }

  /** The members of a failover group are flattened one after the other. */
  lemma {:induction false} FlattenSplits(g: Graph, rank: map<string, nat>, k: string, first: seq<string>, last: seq<string>)
    requires Acyclic(g, rank) && k in g && forall m <- first + last :: RankOf(g, rank, m) <= rank[k]
    ensures (forall m <- first :: RankOf(g, rank, m) <= rank[k]) && forall m <- last :: RankOf(g, rank, m) <= rank[k]
    ensures FlattenAll(g, rank, k, first + last) == FlattenAll(g, rank, k, first) + FlattenAll(g, rank, k, last)
    decreases |last|
  {
    hide Acyclic, RankOf, Flatten;
    assert (forall m <- first :: m in first + last) && forall m <- last :: m in first + last;
    if last == [] {
      assert first + last == first;
    } else {
      var n := |last| - 1;
      assert (first + last)[..|first + last| - 1] == first + last[..n];
      FlattenSplits(g, rank, k, first, last[..n]);
    }
  }

  /** So a failover group of plain proxies is those proxies in the order listed. */
  lemma {:induction false} FlattenOfLeaves(g: Graph, rank: map<string, nat>, k: string, members: seq<string>, ids: seq<string>)
    requires Acyclic(g, rank) && k in g && (forall m <- members :: RankOf(g, rank, m) <= rank[k]) && |ids| == |members|
    requires forall i :: 0 <= i < |members| ==> Get(g, members[i]) == Some(Leaf(ids[i]))
    ensures FlattenAll(g, rank, k, members) == ids
    decreases |members|
  {
    hide Acyclic, RankOf, Get;
    if members != [] {
      var n := |members| - 1;
      FlattenOfLeaves(g, rank, k, members[..n], ids[..n]);
      FlattenOne(g, rank, members[n]);
    }
  }

  // ---- when a new choice keeps the recursion well founded ----------------

  predicate Edge(g: Graph, k: string, m: string): (e: bool)
    ensures e ==> k in g && m in g
  {
    k in g && m in g && exists i :: 0 <= i < |References(g[k])| && !Special(References(g[k])[i]) && Lower(References(g[k])[i]) == m
  }

  lemma AcyclicByEdges(g: Graph, rank: map<string, nat>)
    ensures Acyclic(g, rank) <==> rank.Keys == g.Keys && forall k, m :: Edge(g, k, m) ==> rank[m] < rank[k]
  {
    hide Special, Lower, References;
    if rank.Keys == g.Keys && forall k, m :: Edge(g, k, m) ==> rank[m] < rank[k] {
      forall k, i | k in g && 0 <= i < |References(g[k])| && !Special(References(g[k])[i]) && Lower(References(g[k])[i]) in g
        ensures rank[Lower(References(g[k])[i])] < rank[k]
      {
        assert Edge(g, k, Lower(References(g[k])[i]));
      }
    }
  }

  /** Whether Connect on k can get to the target through any choices and members. */
  ghost predicate Reaches(g: Graph, rank: map<string, nat>, k: string, target: string)
    requires rank.Keys == g.Keys && (forall k, m :: Edge(g, k, m) ==> rank[m] < rank[k]) && k in g
    decreases rank[k]
  {
    k == target || exists m :: Edge(g, k, m) && Reaches(g, rank, m, target)
  }

  lemma {:induction false} ReachesMeansRank(g: Graph, rank: map<string, nat>, k: string, target: string, g': Graph, rank': map<string, nat>)
    requires rank.Keys == g.Keys && (forall k, m :: Edge(g, k, m) ==> rank[m] < rank[k]) && k in g && target in g
    requires rank'.Keys == g'.Keys == g.Keys && forall k, m :: Edge(g', k, m) ==> rank'[m] < rank'[k]
    requires forall k, m :: k != target && Edge(g, k, m) ==> Edge(g', k, m)
    requires Reaches(g, rank, k, target)
    ensures rank'[target] <= rank'[k]
    decreases rank[k]
  {
    hide Edge;
    if k != target {
      var m :| Edge(g, k, m) && Reaches(g, rank, m, target);
      ReachesMeansRank(g, rank, m, target, g', rank');
    }
  }

  ghost predicate HasRank(g: Graph) {
    exists rank :: Acyclic(g, rank)
  }

  lemma EdgeChange(g: Graph, key: string, name: string, k: string, m: string)
    requires key in g && g[key].Selector?
    ensures
      var g' := g[key := Selector(Lower(name))];
      Edge(g', k, m) <==> if k == key then m in g && !Special(Lower(name)) && Lower(Lower(name)) == m else Edge(g, k, m)
  {
    hide Special, Lower;
    var g' := g[key := Selector(Lower(name))];
    if k == key && m in g && !Special(Lower(name)) && Lower(Lower(name)) == m {
      assert References(g'[k])[0] == Lower(name);
    }
  }

  /** SetChoice makes no check of its own. In a graph that has a rank, the new choice leaves one
      that has a rank, and so Connect terminates, exactly when the chosen proxy is built in or
      cannot itself reach the selector. */
  lemma SetChoiceKeepsAcyclicIff(g: Graph, rank: map<string, nat>, key: string, name: string)
    requires Acyclic(g, rank) && key in g && g[key].Selector? && Get(g, name).Some?
    ensures rank.Keys == g.Keys && forall k, m :: Edge(g, k, m) ==> rank[m] < rank[k]
    ensures HasRank(g[key := Selector(Lower(name))])
            <==> (Special(name) || !Reaches(g, rank, Lower(name), key))
  {
    hide Edge, Acyclic, Reaches;
    AcyclicByEdges(g, rank);
    var g', c := g[key := Selector(Lower(name))], Lower(name);
    LowerTwice(name);
    forall k, m ensures Edge(g', k, m) <==> if k == key then m in g && !Special(c) && Lower(c) == m else Edge(g, k, m) {
      EdgeChange(g, key, name, k, m);
    }
    if Special(name) || !Reaches(g, rank, c, key) {
      NewRank(g, rank, key, name);
    } else {
      forall r ensures !Acyclic(g', r) {
        if Acyclic(g', r) {
          AcyclicByEdges(g', r);
          assert Edge(g', key, c);
          ReachesMeansRank(g, rank, c, key, g', r);
          assert false;
        }
      }
    }
  }

  lemma LowerTwice(name: string)
    ensures Lower(Lower(name)) == Lower(name) && (Special(Lower(name)) <==> Special(name))
    ensures forall g: Graph :: !Special(name) && Get(g, name).Some? ==> Lower(name) in g
  {
    assert Upper(Lower(name)) == Upper(name);
    assert Lower(Lower(name)) == Lower(name);
  }

  lemma RankBound(rank: map<string, nat>) returns (top: nat)
    ensures forall k | k in rank :: rank[k] < top
    decreases |rank|
  {
    if rank == map[] {
      top := 0;
    } else {
      var k :| k in rank;
      assert |rank - {k}| < |rank| by { assert rank.Keys == (rank - {k}).Keys + {k}; }
      var t := RankBound(rank - {k});
      top := t + rank[k] + 1;
      forall j | j in rank ensures rank[j] < top {
        if j != k { assert (rank - {k})[j] == rank[j]; }
      }
    }
  }

  /** Lifting everything that reaches the selector above all the rest. */
  lemma NewRank(g: Graph, rank: map<string, nat>, key: string, name: string)
    requires rank.Keys == g.Keys && (forall k, m :: Edge(g, k, m) ==> rank[m] < rank[k])
    requires key in g && g[key].Selector? && Get(g, name).Some?
    requires Special(name) || (Lower(name) in g && !Reaches(g, rank, Lower(name), key))
    ensures HasRank(g[key := Selector(Lower(name))])
  {
    hide Edge, Acyclic, Special, Reaches, Get, Lower;
    var g' := g[key := Selector(Lower(name))];
    var top := RankBound(rank);
    var r := map k | k in g :: if Reaches(g, rank, k, key) then rank[k] + top else rank[k];
    assert g'.Keys == g.Keys;
    forall k, m | Edge(g', k, m) ensures r[m] < r[k] {
      NewRankEdge(g, rank, key, name, k, m);
    }
    AcyclicByEdges(g', r);
  }

  lemma NewRankEdge(g: Graph, rank: map<string, nat>, key: string, name: string, k: string, m: string)
    requires rank.Keys == g.Keys && (forall k, m :: Edge(g, k, m) ==> rank[m] < rank[k])
    requires key in g && g[key].Selector? && Get(g, name).Some?
    requires Special(name) || (Lower(name) in g && !Reaches(g, rank, Lower(name), key))
    requires Edge(g[key := Selector(Lower(name))], k, m)
    ensures k in g && m in g && Reaches(g, rank, key, key)
    ensures if k == key then !Reaches(g, rank, m, key)
            else rank[m] < rank[k] && (Reaches(g, rank, m, key) ==> Reaches(g, rank, k, key))
  {
    hide Edge, Special, Get, Lower;
    LowerTwice(name);
    EdgeChange(g, key, name, k, m);
  }
}
