/** Runs that show what the cluster's guarantees rest on. */
module RaftRuns {
  import opened Options
  import opened RaftNode
  import opened RaftCluster

  const YES: Env := Env(true, false)
  const NO: Env := Env(false, false)

  function Ask(x: Address, y: Address, v: nat): Packet { Packet(x, y, Message(AskForVote, v)) }

  function Aye(x: Address, y: Address, v: nat): Packet { Packet(x, y, Message(Vote(true), v)) }

  function Check(x: Address, y: Address, v: nat): Packet { Packet(x, y, Message(LeaderCheck, v)) }

  lemma Extend(c: Cluster, es: seq<Event>, e: Event)
    requires RunFrom(c, es).Some? && Enabled(RunFrom(c, es).value, e)
    ensures RunFrom(c, es + [e]) == Some(Apply(RunFrom(c, es).value, e))
  {
    assert (es + [e])[..|es|] == es;
  }

  /** A node runs for leader after a silence. */
  lemma Campaigns(c: Cluster, x: Address)
    requires x in c.nodes && c.nodes[x].role != Leader && !c.nodes[x].halted
    ensures Enabled(c, Silence(x, false))
    ensures var d, v := Apply(c, Silence(x, false)), c.nodes[x].version + 1;
      && d.nodes == c.nodes[x := Node(Candidate, NOBODY, v, 1, false)]
      && d.net == c.net + ToAll(x, PeersOf(c, x), Message(AskForVote, v)) && d.wins == c.wins
  {
  }

  lemma Sees(c: Cluster, x: Address, y: Address, msg: Message)
    requires y in c.nodes && y != x
    ensures Packet(x, y, msg) in ToAll(x, PeersOf(c, x), msg)
  {
    assert y in PeersOf(c, x);
  }

  /** A node votes in favour. */
  lemma Votes(c: Cluster, x: Address, y: Address, v: nat)
    requires Ask(x, y, v) in c.net && y in c.nodes && !c.nodes[y].halted && c.nodes[y].version < v
    ensures Enabled(c, Deliver(Ask(x, y, v), YES, false))
    ensures var d := Apply(c, Deliver(Ask(x, y, v), YES, false));
      && d.nodes == c.nodes[y := Following(x, v)]
      && d.net == c.net - multiset{Ask(x, y, v)} + multiset{Aye(y, x, v)} && d.wins == c.wins
  {
  }

  lemma CountsVote(me: Address, peers: set<Address>, from: Address, v: nat, votes: nat)
    ensures var n := Node(Candidate, NOBODY, v, votes, false);
      var (n', out) := Turn(me, peers, n, Some((from, Message(Vote(true), v))), YES, false);
      if votes + 1 >= Quorum(|peers|) then
        n' == Node(Leader, NOBODY, v, 0, false) && out == ToAll(me, peers, Message(LeaderCheck, v))
      else n' == n.(votes := votes + 1) && out == multiset{}
  {
  }

  /** A candidate counts a vote. */
  lemma Counted(c: Cluster, x: Address, y: Address, v: nat)
    requires Aye(y, x, v) in c.net && x in c.nodes && c.nodes[x] == Node(Candidate, NOBODY, v, c.nodes[x].votes, false)
    ensures Enabled(c, Deliver(Aye(y, x, v), YES, false))
    ensures var d, n := Apply(c, Deliver(Aye(y, x, v), YES, false)), c.nodes[x];
      if n.votes + 1 >= Quorum(|PeersOf(c, x)|) then
        && d.nodes == c.nodes[x := Node(Leader, NOBODY, v, 0, false)] && d.wins == c.wins + {Win(x, v)}
        && d.net == c.net - multiset{Aye(y, x, v)} + ToAll(x, PeersOf(c, x), Message(LeaderCheck, v))
      else
        && d.nodes == c.nodes[x := n.(votes := n.votes + 1)] && d.wins == c.wins
        && d.net == c.net - multiset{Aye(y, x, v)}
  {
    hide PeersOf, Quorum, ToAll, Turn, Grants;
    CountsVote(x, PeersOf(c, x), y, v, c.nodes[x].votes);
  }

  /** One run after another. */
  lemma {:induction false} Then(c: Cluster, a: seq<Event>, b: seq<Event>)
    requires RunFrom(c, a).Some? && RunFrom(RunFrom(c, a).value, b).Some?
    ensures RunFrom(c, a + b) == RunFrom(RunFrom(c, a).value, b)
    decreases |b|
  {
    if b == [] {
      assert a + b == a;
    } else {
      Then(c, a, b[..|b| - 1]);
      assert (a + b)[..|a + b| - 1] == a + b[..|b| - 1];
    }
  }

  lemma Nothing(c: Cluster)
    ensures RunFrom(c, []) == Some(c)
  {
  }

  lemma One(c: Cluster, e: Event)
    requires Enabled(c, e)
    ensures RunFrom(c, [e]) == Some(Apply(c, e))
  {
    assert RunFrom(c, []) == Some(c);
    Extend(c, [], e);
    assert [] + [e] == [e];
  }

  /** x runs, and y votes for it. */
  lemma Backed(c: Cluster, x: Address, y: Address) returns (es: seq<Event>, d: Cluster)
    requires x in c.nodes && y in c.nodes && x != y && !c.nodes[x].halted && !c.nodes[y].halted
    requires c.nodes[x].role != Leader && c.nodes[y].role != Leader && c.nodes[y].version <= c.nodes[x].version
    ensures RunFrom(c, es) == Some(d)
    ensures var v := c.nodes[x].version + 1;
      && d.nodes == c.nodes[x := Node(Candidate, NOBODY, v, 1, false)][y := Following(x, v)]
      && Aye(y, x, v) in d.net && d.wins == c.wins
      && (forall z :: z in c.nodes && z != x && z != y ==> Ask(x, z, v) in d.net)
      && (forall p :: p in c.net && p != Ask(x, y, v) ==> p in d.net)
  {
    hide Apply, Enabled, RunFrom, ToAll, PeersOf;
    var v := c.nodes[x].version + 1;
    var e1, e2 := Silence(x, false), Deliver(Ask(x, y, v), YES, false);
    Campaigns(c, x);
    One(c, e1);
    var b := Apply(c, e1);
    forall z | z in c.nodes && z != x
      ensures Ask(x, z, v) in b.net
    {
      Sees(c, x, z, Message(AskForVote, v));
    }
    Votes(b, x, y, v);
    Extend(c, [e1], e2);
    es, d := [e1] + [e2], Apply(b, e2);
  }

  /** A vote is counted that makes no majority yet. */
  lemma Tallied(c: Cluster, x: Address, y: Address, v: nat) returns (e: Event, d: Cluster)
    requires Aye(y, x, v) in c.net && x in c.nodes && c.nodes[x] == Node(Candidate, NOBODY, v, c.nodes[x].votes, false)
    requires c.nodes[x].votes + 1 < Quorum(|PeersOf(c, x)|)
    ensures Enabled(c, e) && d == Apply(c, e)
    ensures d.nodes == c.nodes[x := c.nodes[x].(votes := c.nodes[x].votes + 1)] && d.wins == c.wins
    ensures d.net == c.net - multiset{Aye(y, x, v)}
  {
    hide Apply, Enabled;
    e := Deliver(Aye(y, x, v), YES, false);
    Counted(c, x, y, v);
    d := Apply(c, e);
  }

  /** A vote is counted that makes a majority. */
  lemma Elected(c: Cluster, x: Address, y: Address, v: nat) returns (e: Event, d: Cluster)
    requires Aye(y, x, v) in c.net && x in c.nodes && c.nodes[x] == Node(Candidate, NOBODY, v, c.nodes[x].votes, false)
    requires c.nodes[x].votes + 1 >= Quorum(|PeersOf(c, x)|)
    ensures Enabled(c, e) && d == Apply(c, e)
    ensures d.nodes == c.nodes[x := Node(Leader, NOBODY, v, 0, false)] && d.wins == c.wins + {Win(x, v)}
    ensures forall p :: p in c.net && p != Aye(y, x, v) ==> p in d.net
  {
    hide Apply, Enabled, ToAll;
    e := Deliver(Aye(y, x, v), YES, false);
    Counted(c, x, y, v);
    d := Apply(c, e);
  }

  // ---- every state in which nobody has ended itself can recover ----

  ghost predicate Live(c: Cluster) {
    forall y :: y in c.nodes ==> !c.nodes[y].halted
  }

  /** v is above the versions of all nodes but x. */
  ghost predicate Above(c: Cluster, x: Address, v: nat) {
    forall y :: y in c.nodes && y != x ==> c.nodes[y].version < v
  }

  lemma {:induction false} Bound(nodes: map<Address, Node>) returns (v: nat)
    ensures forall y :: y in nodes ==> nodes[y].version < v
    decreases |nodes|
  {
    if nodes == map[] {
      v := 0;
    } else {
      var y :| y in nodes;
      assert |nodes - {y}| < |nodes| by { assert (nodes - {y}).Keys == nodes.Keys - {y}; }
      var w := Bound(nodes - {y});
      v := if w <= nodes[y].version then nodes[y].version + 1 else w;
      assert forall z :: z in nodes && z != y ==> z in nodes - {y} && (nodes - {y})[z] == nodes[z];
    }
  }

  /** Silences until x runs with version v. */
  lemma {:induction false} Raised(c: Cluster, x: Address, v: nat) returns (es: seq<Event>, d: Cluster)
    requires x in c.nodes && c.nodes[x].role != Leader && !c.nodes[x].halted && c.nodes[x].version < v
    ensures RunFrom(c, es) == Some(d) && VotesOnce(es) && d.wins == c.wins
    ensures d.nodes == c.nodes[x := Node(Candidate, NOBODY, v, 1, false)]
    ensures forall y :: y in c.nodes && y != x ==> Ask(x, y, v) in d.net
    decreases v - c.nodes[x].version
  {
    hide Apply, Enabled, RunFrom, ToAll, PeersOf;
    var e := Silence(x, false);
    Campaigns(c, x);
    One(c, e);
    d := Apply(c, e);
    es := [e];
    if c.nodes[x].version + 1 < v {
      var more;
      more, d := Raised(d, x, v);
      Then(c, [e], more);
      es := es + more;
    } else {
      forall y | y in c.nodes && y != x
        ensures Ask(x, y, v) in d.net
      {
        Sees(c, x, y, Message(AskForVote, v));
      }
    }
  }

  /** Those in ys have voted for x, who runs with version v; the others can be asked yet. */
  ghost predicate Polled(c: Cluster, b: Cluster, x: Address, v: nat, ys: set<Address>) {
    && b.nodes.Keys == c.nodes.Keys && x in b.nodes && b.nodes[x] == Node(Candidate, NOBODY, v, 1, false)
    && ys <= PeersOf(c, x)
    && forall y :: y in c.nodes && y != x ==>
      if y in ys then b.nodes[y] == Following(x, v) && Aye(y, x, v) in b.net
      else b.nodes[y] == c.nodes[y] && Ask(x, y, v) in b.net
  }

  lemma PollOne(c: Cluster, b: Cluster, x: Address, v: nat, ys: set<Address>, y: Address)
    returns (e: Event, m: Cluster)
    requires Live(c) && Above(c, x, v) && Polled(c, b, x, v, ys) && y in PeersOf(c, x) - ys
    ensures Enabled(b, e) && m == Apply(b, e) && !RepeatsVote(e)
    ensures Polled(c, m, x, v, ys + {y}) && m.wins == b.wins
  {
    hide Apply, Enabled;
    e := Deliver(Ask(x, y, v), YES, false);
    Votes(b, x, y, v);
    m := Apply(b, e);
    Asked(c, b, m, x, v, ys, y);
  }

  lemma PolledPeers(c: Cluster, b: Cluster, x: Address, v: nat, ys: set<Address>)
    requires Polled(c, b, x, v, ys)
    ensures PeersOf(c, x) - ys == {} ==> ys == PeersOf(c, x)
  {
    assert forall y :: y in PeersOf(c, x) ==> y in ys || y in PeersOf(c, x) - ys;
  }

  /** One voter after another. */
  lemma {:induction false} Polling(c: Cluster, b: Cluster, x: Address, v: nat, ys: set<Address>)
    returns (es: seq<Event>, d: Cluster)
    requires Live(c) && Above(c, x, v) && Polled(c, b, x, v, ys)
    ensures RunFrom(b, es) == Some(d) && VotesOnce(es) && Polled(c, d, x, v, PeersOf(c, x)) && d.wins == b.wins
    decreases PeersOf(c, x) - ys
  {
    hide Apply, Enabled, RunFrom, Polled, Above, Live, PeersOf;
    PolledPeers(c, b, x, v, ys);
    var rest := PeersOf(c, x) - ys;
    if rest == {} {
      Nothing(b);
      return [], b;
    }
    var y :| y in rest;
    var e, m := PollOne(c, b, x, v, ys, y);
    One(b, e);
    var more;
    more, d := Polling(c, m, x, v, ys + {y});
    Then(b, [e], more);
    es := [e] + more;
  }

  lemma Asked(c: Cluster, b: Cluster, m: Cluster, x: Address, v: nat, ys: set<Address>, y: Address)
    requires Polled(c, b, x, v, ys) && y in PeersOf(c, x) - ys && m.nodes == b.nodes[y := Following(x, v)]
    requires m.net == b.net - multiset{Ask(x, y, v)} + multiset{Aye(y, x, v)}
    ensures Polled(c, m, x, v, ys + {y})
  {
  }

  /** The votes of ys are in flight to x, who has counted all others and still runs. */
  ghost predicate Counting(b: Cluster, x: Address, v: nat, ys: set<Address>, votes: nat) {
    && x in b.nodes && b.nodes[x] == Node(Candidate, NOBODY, v, votes, false)
    && |PeersOf(b, x)| + 1 == |ys| + votes && forall y :: y in ys ==> Aye(y, x, v) in b.net
  }

  /** Counted one by one, they make x the leader. */
  lemma {:induction false} CountUp(b: Cluster, x: Address, v: nat, ys: set<Address>, votes: nat)
    returns (es: seq<Event>, d: Cluster)
    requires Counting(b, x, v, ys, votes) && ys != {} && votes < Quorum(|PeersOf(b, x)|)
    ensures RunFrom(b, es) == Some(d) && VotesOnce(es) && Win(x, v) in d.wins
    ensures d.nodes == b.nodes[x := Node(Leader, NOBODY, v, 0, false)]
    decreases |ys|
  {
    hide Apply, Enabled, RunFrom, ToAll;
    var y :| y in ys;
    var e := Deliver(Aye(y, x, v), YES, false);
    Counted(b, x, y, v);
    One(b, e);
    d := Apply(b, e);
    es := [e];
    if votes + 1 < Quorum(|PeersOf(b, x)|) {
      assert PeersOf(d, x) == PeersOf(b, x);
      var more;
      more, d := CountUp(d, x, v, ys - {y}, votes + 1);
      Then(b, [e], more);
      es := es + more;
    }
  }

  /** From every state in which no node has ended itself, each node of a cluster of two or more that does not lead can
      be elected, with all others following it. */
  lemma Recovers(c: Cluster, x: Address) returns (es: seq<Event>, d: Cluster, v: nat)
    requires Live(c) && x in c.nodes && c.nodes[x].role != Leader && |Ids(c)| >= 2
    ensures RunFrom(c, es) == Some(d) && VotesOnce(es) && Win(x, v) in d.wins
    ensures d.nodes == map y | y in c.nodes :: if y == x then Node(Leader, NOBODY, v, 0, false) else Following(x, v)
    ensures forall y :: y in c.nodes ==> c.nodes[y].version < v
  {
    hide Apply, Enabled, RunFrom, ToAll, Polled, Counting;
    v := Bound(c.nodes);
    var a, b, votes, c1, c2;
    a, c1 := Raised(c, x, v);
    NonePolled(c, c1, x, v);
    b, c2 := Polling(c, c1, x, v, {});
    AllPolled(c, c2, x, v);
    votes, d := CountUp(c2, x, v, PeersOf(c, x), 1);
    Then(c1, b, votes);
    Then(c, a, b + votes);
    es := a + (b + votes);
  }

  lemma NonePolled(c: Cluster, b: Cluster, x: Address, v: nat)
    requires x in c.nodes && b.nodes == c.nodes[x := Node(Candidate, NOBODY, v, 1, false)]
    requires forall y :: y in c.nodes && y != x ==> Ask(x, y, v) in b.net
    ensures Polled(c, b, x, v, {})
  {
  }

  lemma AllPolled(c: Cluster, b: Cluster, x: Address, v: nat)
    requires x in c.nodes && |Ids(c)| >= 2 && Polled(c, b, x, v, PeersOf(c, x))
    ensures Counting(b, x, v, PeersOf(c, x), 1) && PeersOf(c, x) != {} && 1 < Quorum(|PeersOf(b, x)|)
    ensures b.nodes == map y | y in c.nodes :: if y == x then Node(Candidate, NOBODY, v, 1, false) else Following(x, v)
  {
    assert PeersOf(b, x) == PeersOf(c, x) && |PeersOf(c, x)| == |Ids(c)| - 1;
  }

  // ---- a cluster of one ----

  lemma {:induction false} Alone(ids: set<Address>, es: seq<Event>)
    requires NOBODY !in ids && |ids| <= 1 && Run(ids, es).Some? && VotesOnce(es)
    ensures Run(ids, es).value.wins == {}
    decreases |es|
  {
    if es != [] {
      var less, e := es[..|es| - 1], es[|es| - 1];
      Alone(ids, less);
      ReachableInv(ids, less);
      var b := Run(ids, less).value;
      NoPackets(b);
      match e {
        case Silence(x, late) => TurnOfNode(x, PeersOf(b, x), b.nodes[x], None, Env(false, false), late);
        case _ =>
      }
    }
  }

  lemma NoPackets(c: Cluster)
    requires Inv(c) && |Ids(c)| <= 1
    ensures c.net == multiset{}
  {
    hide VotesAreFresh, CountsAreTrue, WinsAreMajorities, OneGrantPerVersion, GrantsAreDue, Tidy;
    if c.net != multiset{} {
      var p :| p in c.net;
      assert {p.from, p.to} <= Ids(c);
      Smaller({p.from, p.to}, Ids(c));
      assert false;
    }
  }

  /** A leader can be elected exactly where there are two nodes or more: alone, a candidate never gets the vote that
      would make it look at the count. */
  lemma ElectsExactlyFromTwoOn(ids: set<Address>)
    requires NOBODY !in ids
    ensures (exists es :: Run(ids, es).Some? && VotesOnce(es) && Run(ids, es).value.wins != {}) <==> |ids| >= 2
  {
    hide RunFrom;
    if |ids| >= 2 {
      var x :| x in ids;
      assert Ids(Start(ids)) == ids;
      var es, d, v := Recovers(Start(ids), x);
      assert Run(ids, es) == Some(d);
    } else {
      forall es | Run(ids, es).Some? && VotesOnce(es)
        ensures Run(ids, es).value.wins == {}
      {
        Alone(ids, es);
      }
    }
  }

  lemma TwoPeers(c: Cluster)
    requires Ids(c) == {1, 2, 3}
    ensures Quorum(|PeersOf(c, 1)|) == 2 && Quorum(|PeersOf(c, 3)|) == 2
  {
    assert PeersOf(c, 1) == {2, 3} && PeersOf(c, 3) == {1, 2};
  }

  /** A leader that steps down for a campaign it finds unfit, and is late with its check, sends the check
      with the version of that campaign; the real leader of that version then ends itself. */
  lemma StaleCheckEndsTheLeader() returns (es: seq<Event>, last: Event)
    ensures Run({1, 2, 3}, es).Some? && Enabled(Run({1, 2, 3}, es).value, last)
    ensures var c := Run({1, 2, 3}, es).value;
      && last.Deliver? && last.p == Check(1, 3, 2) && Win(3, 2) in c.wins && Win(1, 2) !in c.wins
      && 3 in c.nodes && c.nodes[3].role == Leader && c.nodes[3].version == 2 && !c.nodes[3].halted
      && 3 in Apply(c, last).nodes && Apply(c, last).nodes[3].halted
  {
    hide Apply, Enabled, RunFrom, PeersOf;
    var c0 := Start({1, 2, 3});
    var a, b, e1, e2, c1, c2, c4, c5;
    a, c1 := Backed(c0, 1, 2);
    TwoPeers(c1);
    e1, c2 := Elected(c1, 1, 2, 1);
    Extend(c0, a, e1);
    Campaigns(c2, 3);
    var c3 := Apply(c2, Silence(3, false));
    Extend(c0, a + [e1], Silence(3, false));
    b, c4 := Backed(c3, 3, 2);
    Then(c0, a + [e1] + [Silence(3, false)], b);
    TwoPeers(c4);
    e2, c5 := Elected(c4, 3, 2, 2);
    Extend(c0, a + [e1] + [Silence(3, false)] + b, e2);
    var e3 := Deliver(Ask(3, 1, 2), NO, true);
    Refuses(c5, 3, 1, 2);
    Extend(c0, a + [e1] + [Silence(3, false)] + b + [e2], e3);
    es := a + [e1] + [Silence(3, false)] + b + [e2] + [e3];
    last := Deliver(Check(1, 3, 2), YES, false);
    Ends(Apply(c5, e3), 1, 3, 2);
  }

  /** A leader steps down for a campaign it finds unfit, and still repeats its check. */
  lemma Refuses(c: Cluster, x: Address, y: Address, v: nat)
    requires Ask(x, y, v) in c.net && x in c.nodes && y in c.nodes && x != y
    requires c.nodes[y].role == Leader && !c.nodes[y].halted && c.nodes[y].version < v
    ensures Enabled(c, Deliver(Ask(x, y, v), NO, true))
    ensures var d := Apply(c, Deliver(Ask(x, y, v), NO, true));
      && d.nodes == c.nodes[y := Following(NOBODY, v)] && d.wins == c.wins && Check(y, x, v) in d.net
  {
    Sees(c, y, x, Message(LeaderCheck, v));
  }

  lemma Ends(c: Cluster, x: Address, y: Address, v: nat)
    requires Check(x, y, v) in c.net && y in c.nodes && c.nodes[y].role == Leader && !c.nodes[y].halted
    requires c.nodes[y].version == v
    ensures Enabled(c, Deliver(Check(x, y, v), YES, false))
    ensures y in Apply(c, Deliver(Check(x, y, v), YES, false)).nodes
    ensures Apply(c, Deliver(Check(x, y, v), YES, false)).nodes[y].halted
  {
  }
}
