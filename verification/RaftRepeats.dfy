/** A network that also repeats votes in favour: what is left of election safety, and for which clusters. */
module RaftRepeats {
  import opened Options
  import opened RaftNode
  import opened RaftCluster
  import opened RaftRuns

  ghost predicate VotesAreGranted(c: Cluster) {
    forall p :: p in c.net && InFavour(p) ==> Grant(p.from, p.msg.version, p.to) in c.grants
  }

  ghost predicate CandidatesRun(c: Cluster) {
    forall x :: x in c.nodes && c.nodes[x].role == Candidate ==> Grant(x, c.nodes[x].version, x) in c.grants
  }

  /** Somebody else stands for the winner as well as the winner itself. */
  ghost predicate Helped(c: Cluster, w: Win) {
    && Grant(w.leader, w.version, w.leader) in c.grants
    && exists y :: y != w.leader && Grant(y, w.version, w.leader) in c.grants
  }

  ghost predicate WinsAreHelped(c: Cluster) {
    forall w :: w in c.wins ==> Helped(c, w)
  }

  ghost predicate Weak(c: Cluster) {
    Sound(c) && VotesAreGranted(c) && CandidatesRun(c) && WinsAreHelped(c)
  }

  // ---- every event, repeated votes included, keeps this ----

  /** What a turn adds to the history. */
  lemma TurnHistory(c: Cluster, x: Address, net: multiset<Packet>, input: Option<(Address, Message)>, env: Env,
                    late: bool)
    requires x in c.nodes
    ensures var d, n := After(c, x, net, input, env, late), c.nodes[x];
      var n' := Turn(x, PeersOf(c, x), n, input, env, late).0;
      && c.grants <= d.grants
      && (Runs(n, n') ==> Grant(x, n'.version, x) in d.grants)
      && (input.Some? && !n.halted && Grants(n, input.value.1, env) ==>
            Grant(x, input.value.1.version, input.value.0) in d.grants)
  {
    hide Turn, Grants, Counts;
  }

  lemma TurnVotes(c: Cluster, x: Address, net: multiset<Packet>, input: Option<(Address, Message)>, env: Env,
                  late: bool)
    requires Weak(c) && Comes(c, x, net, input)
    ensures VotesAreGranted(After(c, x, net, input, env, late))
  {
    hide Turn, Grants, Counts, Sound, CandidatesRun, WinsAreHelped, InFavour;
    var d := After(c, x, net, input, env, late);
    TurnHistory(c, x, net, input, env, late);
    forall p | p in d.net && InFavour(p)
      ensures Grant(p.from, p.msg.version, p.to) in d.grants
    {
      if p in Turn(x, PeersOf(c, x), c.nodes[x], input, env, late).1 {
        TurnSends(x, PeersOf(c, x), c.nodes[x], input, env, late, p);
      } else {
        assert p in net && p in c.net;
      }
    }
  }

  lemma TurnCandidates(c: Cluster, x: Address, net: multiset<Packet>, input: Option<(Address, Message)>, env: Env,
                       late: bool)
    requires Weak(c) && Comes(c, x, net, input)
    ensures CandidatesRun(After(c, x, net, input, env, late))
  {
    hide Turn, Grants, Counts, OneGrantPerVersion, GrantsAreDue, PacketsAreProper, VotesAreGranted, WinsAreHelped;
    TurnHistory(c, x, net, input, env, late);
    TurnParts(c, x, net, input, env, late);
    TurnOfNode(x, PeersOf(c, x), c.nodes[x], input, env, late);
  }

  /** A vote that is counted comes from somebody else, who stands for the candidate at its version. */
  lemma CountedHelps(c: Cluster, x: Address, net: multiset<Packet>, input: Option<(Address, Message)>)
    requires Weak(c) && Comes(c, x, net, input) && input.Some? && Counts(c.nodes[x], input.value.1)
    ensures Helped(c, Win(x, c.nodes[x].version))
  {
    hide OneGrantPerVersion, WinsAreHelped;
    var p := Packet(input.value.0, x, input.value.1);
    assert p in c.net && InFavour(p) && p.from != x;
    assert Grant(p.from, p.msg.version, x) in c.grants;
  }

  lemma TurnWinsHelped(c: Cluster, x: Address, net: multiset<Packet>, input: Option<(Address, Message)>, env: Env,
                       late: bool)
    requires Weak(c) && Comes(c, x, net, input)
    ensures WinsAreHelped(After(c, x, net, input, env, late))
  {
    hide Turn, Grants, Counts, OneGrantPerVersion, GrantsAreDue, PacketsAreProper, VotesAreGranted, CandidatesRun;
    var d := After(c, x, net, input, env, late);
    TurnHistory(c, x, net, input, env, late);
    TurnParts(c, x, net, input, env, late);
    TurnOfNode(x, PeersOf(c, x), c.nodes[x], input, env, late);
    forall w | w in d.wins
      ensures Helped(d, w)
    {
      if w !in c.wins {
        CountedHelps(c, x, net, input);
      }
      assert Helped(c, w);
    }
  }

  lemma TurnWeak(c: Cluster, x: Address, net: multiset<Packet>, input: Option<(Address, Message)>, env: Env, late: bool)
    requires Weak(c) && Comes(c, x, net, input)
    ensures Weak(After(c, x, net, input, env, late))
  {
    hide Turn, Grants, Counts, OneGrantPerVersion, GrantsAreDue, PacketsAreProper, VotesAreGranted, CandidatesRun;
    hide WinsAreHelped;
    TurnOfNode(x, PeersOf(c, x), c.nodes[x], input, env, late);
    TurnOneGrant(c, x, net, input, env, late);
    TurnGrantsDue(c, x, net, input, env, late);
    TurnPackets(c, x, net, input, env, late);
    TurnVotes(c, x, net, input, env, late);
    TurnCandidates(c, x, net, input, env, late);
    TurnWinsHelped(c, x, net, input, env, late);
  }

  lemma PacketsWeak(c: Cluster, e: Event)
    requires Weak(c) && Enabled(c, e) && !e.Deliver? && !e.Silence?
    ensures Weak(Apply(c, e))
  {
    hide Turn, After, VotesAreGranted, CandidatesRun, WinsAreHelped, OneGrantPerVersion, GrantsAreDue;
    NetWeak(c, Apply(c, e).net);
  }

  /** Other packets in flight, all proper, and no new vote in favour among them. */
  lemma NetWeak(c: Cluster, net: multiset<Packet>)
    requires Weak(c)
    requires forall p :: p in net ==>
      && p.from in Ids(c) && p.to in Ids(c) && p.from != p.to && p.msg.version <= c.nodes[p.from].version
      && (p.msg.body == AskForVote || InFavour(p) ==> p in c.net)
    ensures Weak(c.(net := net))
  {
    assert forall w :: w in c.wins ==> Helped(c, w);
  }

  lemma StepWeak(c: Cluster, e: Event)
    requires Weak(c) && Enabled(c, e)
    ensures Weak(Apply(c, e)) && Ids(Apply(c, e)) == Ids(c)
  {
    hide Turn, Grants, Counts, Weak;
    match e
    case Deliver(p, env, late) => TurnWeak(c, p.to, c.net - multiset{p}, Some((p.from, p.msg)), env, late);
    case Silence(x, late) => TurnWeak(c, x, c.net, None, Env(false, false), late);
    case _ => PacketsWeak(c, e);
  }

  lemma {:induction false} ReachableWeak(ids: set<Address>, es: seq<Event>)
    requires NOBODY !in ids && Run(ids, es).Some?
    ensures Weak(Run(ids, es).value) && Ids(Run(ids, es).value) == ids
    decreases |es|
  {
    hide Weak, Enabled;
    if es == [] {
      StartWeak(ids);
    } else {
      ReachableWeak(ids, es[..|es| - 1]);
      StepWeak(Run(ids, es[..|es| - 1]).value, es[|es| - 1]);
    }
  }

  lemma StartWeak(ids: set<Address>)
    requires NOBODY !in ids
    ensures Weak(Start(ids))
  {
  }

  // ---- up to three nodes ----

  /** Two winners of one version would each need a helper of its own besides the two of them. */
  lemma FourForTwoWinners(c: Cluster, x: Address, y: Address, v: nat)
    requires Weak(c) && Win(x, v) in c.wins && Win(y, v) in c.wins && x != y
    ensures |Ids(c)| >= 4
  {
    hide VotesAreGranted, CandidatesRun, PacketsAreProper;
    assert Helped(c, Win(x, v)) && Helped(c, Win(y, v));
    var h :| h != x && Grant(h, v, x) in c.grants;
    var k :| k != y && Grant(k, v, y) in c.grants;
    assert h != y && k != x && h != k;
    assert {x, y, h, k} <= Ids(c);
    Smaller({x, y, h, k}, Ids(c));
  }

  // ---- four nodes and more ----

  /** One vote, repeated and counted as often as it takes, makes a leader. */
  lemma {:induction false} Stuffed(c: Cluster, x: Address, y: Address, v: nat) returns (es: seq<Event>, d: Cluster)
    requires Aye(y, x, v) in c.net && x in c.nodes && c.nodes[x] == Node(Candidate, NOBODY, v, c.nodes[x].votes, false)
    ensures RunFrom(c, es) == Some(d)
    ensures d.nodes == c.nodes[x := Node(Leader, NOBODY, v, 0, false)] && d.wins == c.wins + {Win(x, v)}
    ensures forall p :: p in c.net && p != Aye(y, x, v) ==> p in d.net
    decreases Quorum(|PeersOf(c, x)|) - c.nodes[x].votes
  {
    hide RunFrom, PeersOf, Quorum;
    if c.nodes[x].votes + 1 >= Quorum(|PeersOf(c, x)|) {
      hide Apply, Enabled;
      var e;
      e, d := Elected(c, x, y, v);
      One(c, e);
      es := [e];
    } else {
      var again, more;
      again, more := OnceMore(c, x, y, v);
      hide Apply, Enabled;
      var rest;
      rest, d := Stuffed(more, x, y, v);
      Then(c, again, rest);
      es := again + rest;
    }
  }

  /** The vote is repeated, and one copy of it counted. */
  lemma OnceMore(c: Cluster, x: Address, y: Address, v: nat) returns (es: seq<Event>, d: Cluster)
    requires Aye(y, x, v) in c.net && x in c.nodes && c.nodes[x] == Node(Candidate, NOBODY, v, c.nodes[x].votes, false)
    requires c.nodes[x].votes + 1 < Quorum(|PeersOf(c, x)|)
    ensures RunFrom(c, es) == Some(d)
    ensures d.nodes == c.nodes[x := c.nodes[x].(votes := c.nodes[x].votes + 1)] && d.wins == c.wins && d.net == c.net
    ensures PeersOf(d, x) == PeersOf(c, x)
  {
    hide Apply, Enabled, RunFrom, PeersOf, Quorum;
    var p := Aye(y, x, v);
    var b := Twice(c, p);
    One(c, Repeat(p));
    SamePeers(c, b, x);
    var e;
    e, d := Tallied(b, x, y, v);
    Extend(c, [Repeat(p)], e);
    es := [Repeat(p)] + [e];
    assert c.net + multiset{p} - multiset{p} == c.net;
    SamePeers(b, d, x);
  }

  lemma Twice(c: Cluster, p: Packet) returns (d: Cluster)
    requires p in c.net
    ensures Enabled(c, Repeat(p)) && d == Apply(c, Repeat(p)) == c.(net := c.net + multiset{p})
  {
    d := c.(net := c.net + multiset{p});
  }

  lemma SamePeers(c: Cluster, d: Cluster, x: Address)
    requires c.nodes.Keys == d.nodes.Keys
    ensures PeersOf(c, x) == PeersOf(d, x)
  {
  }

  /** In any cluster of four nodes or more: two candidates, one voter each. */
  lemma TwoLeaders(ids: set<Address>) returns (es: seq<Event>, x: Address, y: Address)
    requires |ids| >= 4
    ensures Run(ids, es).Some? && x != y && Win(x, 1) in Run(ids, es).value.wins && Win(y, 1) in Run(ids, es).value.wins
  {
    hide Apply, Enabled, RunFrom, PeersOf;
    var xs := Four(ids);
    x, y := xs[0], xs[1];
    var a, b, s, t, c1, c2, c3, c4;
    var c0 := Start(ids);
    a, c1 := Backed(c0, x, xs[2]);
    b, c2 := Backed(c1, y, xs[3]);
    Then(c0, a, b);
    s, c3 := Stuffed(c2, x, xs[2], 1);
    Then(c0, a + b, s);
    t, c4 := Stuffed(c3, y, xs[3], 1);
    Then(c0, a + b + s, t);
    es := a + b + s + t;
  }

  lemma Four(ids: set<Address>) returns (xs: seq<Address>)
    requires |ids| >= 4
    ensures |xs| == 4 && (forall i :: 0 <= i < 4 ==> xs[i] in ids) && forall i, j :: 0 <= i < j < 4 ==> xs[i] != xs[j]
  {
    var a :| a in ids;
    var rest := ids - {a};
    assert |rest| == |ids| - 1;
    var b :| b in rest;
    rest := rest - {b};
    assert |rest| == |ids| - 2;
    var c :| c in rest;
    rest := rest - {c};
    assert |rest| == |ids| - 3;
    var d :| d in rest;
    xs := [a, b, c, d];
  }

  // ---- the exact condition ----

  /** No two nodes ever become leader with the same version, whatever the network loses, delays, reorders or repeats. */
  ghost predicate Safe(ids: set<Address>) {
    forall es, x, y, v ::
      Run(ids, es).Some? && Win(x, v) in Run(ids, es).value.wins && Win(y, v) in Run(ids, es).value.wins ==> x == y
  }

  /** Over a network that may repeat any packet, election safety holds for exactly the clusters of up to three nodes. */
  lemma SafeExactlyUpToThree(ids: set<Address>)
    requires NOBODY !in ids
    ensures Safe(ids) <==> |ids| <= 3
  {
    hide Run, Weak;
    if |ids| <= 3 {
      forall es, x, y, v | Run(ids, es).Some? && Win(x, v) in Run(ids, es).value.wins &&
        Win(y, v) in Run(ids, es).value.wins
        ensures x == y
      {
        ReachableWeak(ids, es);
        if x != y {
          FourForTwoWinners(Run(ids, es).value, x, y, v);
        }
      }
    } else {
      var es, x, y := TwoLeaders(ids);
    }
  }
}
