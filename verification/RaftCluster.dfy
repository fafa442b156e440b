/** A cluster of such nodes over a network that loses, delays, reorders and repeats packets. The theorems here are
    about runs in which it repeats no vote in favour. */
module RaftCluster {
  import opened Options
  import opened RaftNode

  /** voter stood for candidate at this version: by a vote, or by running itself. */
  datatype Grant = Grant(voter: Address, version: nat, candidate: Address)

  datatype Win = Win(leader: Address, version: nat)

  /** The nodes and the packets in flight, with a record of the past: all grants, those the candidate
      has counted, and all victories. */
  datatype Cluster = Cluster(nodes: map<Address, Node>, net: multiset<Packet>,
                             grants: set<Grant>, counted: set<Grant>, wins: set<Win>)

  datatype Event =
    | Deliver(p: Packet, env: Env, late: bool)
    | Silence(x: Address, late: bool)
    | Synchronize(x: Address)
    | Lose(p: Packet)
    | Repeat(p: Packet)

  function Ids(c: Cluster): set<Address> {
    c.nodes.Keys
  }

  function PeersOf(c: Cluster, x: Address): set<Address> {
    Ids(c) - {x}
  }

  /** Every node knows all the others; all start as followers of nobody at version 0. */
  function Start(ids: set<Address>): Cluster {
    Cluster(map x | x in ids :: Following(NOBODY, 0), multiset{}, {}, {}, {})
  }

  predicate InFavour(p: Packet) {
    p.msg.body == Vote(true)
  }

  predicate Enabled(c: Cluster, e: Event) {
    match e
    case Deliver(p, _, _) => p in c.net && p.to in c.nodes
    case Silence(x, _) => x in c.nodes
    case Synchronize(x) => x in c.nodes
    case Lose(p) => p in c.net
    case Repeat(p) => p in c.net
  }

  predicate RepeatsVote(e: Event) {
    e.Repeat? && InFavour(e.p)
  }

  /** The network repeats no vote in favour. */
  ghost predicate VotesOnce(es: seq<Event>) {
    forall e :: e in es ==> !RepeatsVote(e)
  }

  /** One node takes a turn; the history records what it thereby stood for, counted and won. */
  function After(c: Cluster, x: Address, net: multiset<Packet>, input: Option<(Address, Message)>, env: Env,
                 late: bool): Cluster
    requires x in c.nodes
  {
    var n := c.nodes[x];
    var (n', out) := Turn(x, PeersOf(c, x), n, input, env, late);
    var runs := n'.role == Candidate && n'.version > n.version;
    var mine := if runs then {Grant(x, n'.version, x)} else {};
    Cluster(c.nodes[x := n'], net + out,
            c.grants + mine + (if input.Some? && !n.halted && Grants(n, input.value.1, env)
                               then {Grant(x, input.value.1.version, input.value.0)} else {}),
            c.counted + mine + (if input.Some? && Counts(n, input.value.1)
                                then {Grant(input.value.0, n.version, x)} else {}),
            c.wins + (if n.role != Leader && n'.role == Leader then {Win(x, n'.version)} else {}))
  }

  predicate Counts(n: Node, m: Message) {
    n.role == Candidate && !n.halted && m.body == Vote(true) && !Outdated(n, m)
  }

  function Apply(c: Cluster, e: Event): Cluster
    requires Enabled(c, e)
  {
    match e
    case Deliver(p, env, late) => After(c, p.to, c.net - multiset{p}, Some((p.from, p.msg)), env, late)
    case Silence(x, late) => After(c, x, c.net, None, Env(false, false), late)
    case Synchronize(x) => c.(net := c.net + Synchronized(x, PeersOf(c, x), c.nodes[x]))
    case Lose(p) => c.(net := c.net - multiset{p})
    case Repeat(p) => c.(net := c.net + multiset{p})
  }

  /** Where a sequence of events leads, if each of them can happen. */
  function RunFrom(c: Cluster, es: seq<Event>): Option<Cluster> {
    if es == [] then Some(c)
    else match RunFrom(c, es[..|es| - 1])
      case None => None
      case Some(b) => if Enabled(b, es[|es| - 1]) then Some(Apply(b, es[|es| - 1])) else None
  }

  function Run(ids: set<Address>, es: seq<Event>): Option<Cluster> {
    RunFrom(Start(ids), es)
  }

  // ---- the invariant ----

  /** The voters a candidate has counted at a version. */
  ghost function Tally(c: Cluster, x: Address, v: nat): set<Address> {
    set y | y in Ids(c) && Grant(y, v, x) in c.counted
  }

  ghost predicate OneGrantPerVersion(c: Cluster) {
    forall g, h :: g in c.grants && h in c.grants && g.voter == h.voter && g.version == h.version ==> g == h
  }

  /** Nobody has stood for anyone at a version it has not reached, or for somebody who has not run then. */
  ghost predicate GrantsAreDue(c: Cluster) {
    forall g :: g in c.grants ==>
      && g.voter in Ids(c) && g.candidate in Ids(c)
      && g.version <= c.nodes[g.voter].version && g.version <= c.nodes[g.candidate].version
      && Grant(g.candidate, g.version, g.candidate) in c.grants
  }

  /** A vote in flight is the only copy, stands for a grant, and has not been counted. */
  ghost predicate VotesAreFresh(c: Cluster) {
    forall p :: p in c.net && InFavour(p) ==>
      && c.net[p] == 1
      && Grant(p.from, p.msg.version, p.to) in c.grants && Grant(p.from, p.msg.version, p.to) !in c.counted
  }

  /** Packets go between different members; a request for votes comes from one who runs. */
  ghost predicate PacketsAreProper(c: Cluster) {
    forall p :: p in c.net ==>
      && p.from in Ids(c) && p.to in Ids(c) && p.from != p.to
      && p.msg.version <= c.nodes[p.from].version
      && (p.msg.body == AskForVote ==> Grant(p.from, p.msg.version, p.from) in c.grants)
  }

  /** A candidate has counted itself and exactly as many voters as its votes say. */
  ghost predicate CountsAreTrue(c: Cluster) {
    && c.counted <= c.grants
    && forall x :: x in c.nodes && c.nodes[x].role == Candidate ==>
      && |Tally(c, x, c.nodes[x].version)| == c.nodes[x].votes
      && Grant(x, c.nodes[x].version, x) in c.counted
  }

  /** Every victory had a majority, and every leader has won its version. */
  ghost predicate WinsAreMajorities(c: Cluster) {
    && (forall w :: w in c.wins ==> w.leader in Ids(c) && |Tally(c, w.leader, w.version)| >= Quorum(|Ids(c)| - 1))
    && forall x :: x in c.nodes && c.nodes[x].role == Leader ==> Win(x, c.nodes[x].version) in c.wins
  }

  /** What holds however often votes are repeated. */
  ghost predicate Sound(c: Cluster) {
    && NOBODY !in Ids(c)
    && (forall x :: x in c.nodes ==> Tidy(c.nodes[x]))
    && OneGrantPerVersion(c) && GrantsAreDue(c) && PacketsAreProper(c)
  }

  ghost predicate Inv(c: Cluster) {
    Sound(c) && VotesAreFresh(c) && CountsAreTrue(c) && WinsAreMajorities(c)
  }

  lemma StartInv(ids: set<Address>)
    requires NOBODY !in ids
    ensures Inv(Start(ids))
  {
  }

  // ---- election safety from the invariant ----

  lemma {:induction false} Overlap(a: set<Address>, b: set<Address>, all: set<Address>) returns (x: Address)
    requires a <= all && b <= all && |a| + |b| > |all|
    ensures x in a && x in b
  {
    if a * b == {} {
      assert |a + b| == |a| + |b|;
      Smaller(a + b, all);
      assert false;
    }
    x :| x in a * b;
  }

  lemma {:induction false} Smaller<T>(a: set<T>, b: set<T>)
    requires a <= b
    ensures |a| <= |b|
    decreases |a|
  {
    if a != {} {
      var x :| x in a;
      Smaller(a - {x}, b - {x});
    }
  }

  lemma UniqueWinner(c: Cluster, x: Address, y: Address, v: nat)
    requires Inv(c) && Win(x, v) in c.wins && Win(y, v) in c.wins
    ensures x == y
  {
    var z := Overlap(Tally(c, x, v), Tally(c, y, v), Ids(c));
    assert Grant(z, v, x) in c.grants && Grant(z, v, y) in c.grants;
  }

  // ---- every event keeps the invariant ----

  ghost predicate Runs(n: Node, n': Node) {
    n'.role == Candidate && n'.version > n.version
  }

  /** What a turn does to a node, as far as elections are concerned. */
  lemma TurnOfNode(me: Address, peers: set<Address>, n: Node, input: Option<(Address, Message)>, env: Env, late: bool)
    requires Tidy(n)
    ensures var n' := Turn(me, peers, n, input, env, late).0;
      && Tidy(n') && n'.version >= n.version && (n.halted ==> n' == n)
      && (Runs(n, n') ==> n'.votes == 1 && input == None)
      && (n'.role == Candidate && !Runs(n, n') ==> n.role == Candidate && n'.version == n.version)
      && (n'.role == Leader ==> n'.version == n.version)
    ensures var n' := Turn(me, peers, n, input, env, late).0;
      input.Some? && Counts(n, input.value.1) ==>
        && n'.version == n.version && !Runs(n, n')
        && (n'.role == Candidate ==> n'.votes == n.votes + 1)
        && (n'.role == Leader <==> n.votes + 1 >= Quorum(|peers|))
    ensures var n' := Turn(me, peers, n, input, env, late).0;
      !(input.Some? && Counts(n, input.value.1)) ==>
        && (n'.role == Candidate && !Runs(n, n') ==> n'.votes == n.votes)
        && (n'.role == Leader ==> n.role == Leader)
    ensures var n' := Turn(me, peers, n, input, env, late).0;
      input.Some? && !n.halted && Grants(n, input.value.1, env) ==>
        n'.role == Follower && n'.version == input.value.1.version > n.version
  {
  }

  /** What a turn sends. */
  lemma TurnSends(me: Address, peers: set<Address>, n: Node, input: Option<(Address, Message)>, env: Env, late: bool,
                  p: Packet)
    requires var (n', out) := Turn(me, peers, n, input, env, late); p in out
    ensures var (n', out) := Turn(me, peers, n, input, env, late);
      && p.from == me && (p.to in peers || (input.Some? && p.to == input.value.0)) && p.msg.version <= n'.version
      && (p.msg.body == AskForVote ==> Runs(n, n') && p.msg.version == n'.version)
      && (InFavour(p) ==>
        && input.Some? && !n.halted && Grants(n, input.value.1, env) && out[p] == 1
        && p.to == input.value.0 && p.msg.version == input.value.1.version)
  {
  }

  /** The packet taken in (if any) was in flight, and net is what is left of the packets. */
  ghost predicate Comes(c: Cluster, x: Address, net: multiset<Packet>, input: Option<(Address, Message)>) {
    && x in c.nodes && net <= c.net
    && (input.Some? ==> Packet(input.value.0, x, input.value.1) in c.net)
  }

  /** Likewise, and a vote in favour taken in is not in flight any more. */
  ghost predicate Arrives(c: Cluster, x: Address, net: multiset<Packet>, input: Option<(Address, Message)>) {
    && Comes(c, x, net, input)
    && (input.Some? ==> var p := Packet(input.value.0, x, input.value.1); InFavour(p) ==> p !in net)
  }

  lemma TurnOneGrant(c: Cluster, x: Address, net: multiset<Packet>, input: Option<(Address, Message)>, env: Env,
                     late: bool)
    requires Sound(c) && Comes(c, x, net, input)
    ensures OneGrantPerVersion(After(c, x, net, input, env, late))
  {
    hide Turn, Grants, Counts;
    TurnOfNode(x, PeersOf(c, x), c.nodes[x], input, env, late);
  }

  lemma TurnGrantsDue(c: Cluster, x: Address, net: multiset<Packet>, input: Option<(Address, Message)>, env: Env,
                      late: bool)
    requires Sound(c) && Comes(c, x, net, input)
    ensures GrantsAreDue(After(c, x, net, input, env, late))
  {
    hide Turn, Counts, OneGrantPerVersion, VotesAreFresh, CountsAreTrue, WinsAreMajorities, InFavour;
    TurnOfNode(x, PeersOf(c, x), c.nodes[x], input, env, late);
  }

  lemma TurnPackets(c: Cluster, x: Address, net: multiset<Packet>, input: Option<(Address, Message)>, env: Env,
                    late: bool)
    requires Sound(c) && Comes(c, x, net, input)
    ensures PacketsAreProper(After(c, x, net, input, env, late))
  {
    hide Turn, Counts, Grants;
    var d := After(c, x, net, input, env, late);
    TurnOfNode(x, PeersOf(c, x), c.nodes[x], input, env, late);
    forall p | p in d.net
      ensures p.from in Ids(d) && p.to in Ids(d) && p.from != p.to && p.msg.version <= d.nodes[p.from].version
      ensures p.msg.body == AskForVote ==> Grant(p.from, p.msg.version, p.from) in d.grants
    {
      if p in Turn(x, PeersOf(c, x), c.nodes[x], input, env, late).1 {
        TurnSends(x, PeersOf(c, x), c.nodes[x], input, env, late, p);
      } else {
        assert p in net && p in c.net;
      }
    }
  }

  lemma TurnVotesFresh(c: Cluster, x: Address, net: multiset<Packet>, input: Option<(Address, Message)>, env: Env,
                       late: bool)
    requires Inv(c) && Arrives(c, x, net, input)
    ensures VotesAreFresh(After(c, x, net, input, env, late))
  {
    hide Turn, Grants, Counts, Inv, After, InFavour;
    var d := After(c, x, net, input, env, late);
    var out := Turn(x, PeersOf(c, x), c.nodes[x], input, env, late).1;
    TurnNet(c, x, net, input, env, late);
    forall p | p in d.net && InFavour(p)
      ensures d.net[p] == 1
      ensures Grant(p.from, p.msg.version, p.to) in d.grants && Grant(p.from, p.msg.version, p.to) !in d.counted
    {
      if p in out {
        VoteSent(c, x, net, input, env, late, p);
      } else {
        VoteKept(c, x, net, input, env, late, p);
      }
    }
  }

  lemma TurnNet(c: Cluster, x: Address, net: multiset<Packet>, input: Option<(Address, Message)>, env: Env, late: bool)
    requires Arrives(c, x, net, input)
    ensures x in c.nodes
    ensures After(c, x, net, input, env, late).net == net + Turn(x, PeersOf(c, x), c.nodes[x], input, env, late).1
  {
    hide Turn, Grants, Counts;
  }

  /** A vote sent in this turn is the first for its version. */
  lemma VoteSent(c: Cluster, x: Address, net: multiset<Packet>, input: Option<(Address, Message)>, env: Env, late: bool,
                 p: Packet)
    requires Inv(c) && Arrives(c, x, net, input) && InFavour(p)
    requires p in Turn(x, PeersOf(c, x), c.nodes[x], input, env, late).1
    ensures var d := After(c, x, net, input, env, late);
      d.net[p] == 1 && Grant(p.from, p.msg.version, p.to) in d.grants &&
        Grant(p.from, p.msg.version, p.to) !in d.counted
  {
    hide Turn, Grants, OneGrantPerVersion, WinsAreMajorities, Tally;
    TurnOfNode(x, PeersOf(c, x), c.nodes[x], input, env, late);
    TurnSends(x, PeersOf(c, x), c.nodes[x], input, env, late, p);
    NoOldGrant(c, x, input, env);
    TurnNet(c, x, net, input, env, late);
    assert p !in net;
  }

  /** A vote that stays in flight stays what it was. */
  lemma VoteKept(c: Cluster, x: Address, net: multiset<Packet>, input: Option<(Address, Message)>, env: Env, late: bool,
                 p: Packet)
    requires Inv(c) && Arrives(c, x, net, input) && InFavour(p) && p in net
    requires p !in Turn(x, PeersOf(c, x), c.nodes[x], input, env, late).1
    ensures var d := After(c, x, net, input, env, late);
      d.net[p] == 1 && Grant(p.from, p.msg.version, p.to) in d.grants &&
        Grant(p.from, p.msg.version, p.to) !in d.counted
  {
    hide Turn, Grants, OneGrantPerVersion, GrantsAreDue, WinsAreMajorities, Tally;
    TurnNet(c, x, net, input, env, late);
    CountedIsNew(c, x, net, input);
    assert p in c.net && c.net[p] == 1;
  }

  /** A grant about to be given is of a version the voter never stood at. */
  lemma NoOldGrant(c: Cluster, x: Address, input: Option<(Address, Message)>, env: Env)
    requires Inv(c) && x in c.nodes && input.Some? && Grants(c.nodes[x], input.value.1, env)
    ensures forall p :: p in c.net && InFavour(p) && p.from == x ==> p.msg.version < input.value.1.version
    ensures forall g :: g in c.grants && g.voter == x ==> g.version < input.value.1.version
  {
  }

  /** The tally of every node and version only grows, and by whom. */
  lemma TurnTallies(c: Cluster, x: Address, net: multiset<Packet>, input: Option<(Address, Message)>, env: Env,
                    late: bool, y: Address, v: nat)
    requires Inv(c) && Arrives(c, x, net, input)
    ensures var d := After(c, x, net, input, env, late);
      Tally(d, y, v) == Tally(c, y, v)
        + (if Runs(c.nodes[x], d.nodes[x]) && y == x && v == d.nodes[x].version then {x} else {})
        + (if input.Some? && Counts(c.nodes[x], input.value.1) && y == x && v == c.nodes[x].version
           then {input.value.0} else {})
  {
    hide Turn, Grants, Counts, OneGrantPerVersion, GrantsAreDue, VotesAreFresh, CountsAreTrue, WinsAreMajorities, Tidy;
    assert input.Some? ==> Packet(input.value.0, x, input.value.1) in c.net;
  }

  /** The vote being counted is a new one; a node that starts to run has no votes yet. */
  lemma CountedIsNew(c: Cluster, x: Address, net: multiset<Packet>, input: Option<(Address, Message)>)
    requires Inv(c) && Arrives(c, x, net, input)
    ensures input.Some? && Counts(c.nodes[x], input.value.1) ==>
      input.value.1.version == c.nodes[x].version && input.value.0 !in Tally(c, x, c.nodes[x].version)
      && Grant(input.value.0, c.nodes[x].version, x) in c.grants
    ensures forall v :: v > c.nodes[x].version ==> Tally(c, x, v) == {}
  {
    if input.Some? && Counts(c.nodes[x], input.value.1) {
      var p := Packet(input.value.0, x, input.value.1);
      assert p in c.net && InFavour(p);
      assert Grant(p.from, p.msg.version, x) in c.grants;
    }
  }

  lemma CountedGrants(c: Cluster, x: Address, net: multiset<Packet>, input: Option<(Address, Message)>, env: Env,
                      late: bool)
    requires Inv(c) && Arrives(c, x, net, input)
    ensures var d := After(c, x, net, input, env, late); d.counted <= d.grants
  {
    hide Turn, Grants, Counts;
    CountedIsNew(c, x, net, input);
  }

  lemma TurnParts(c: Cluster, x: Address, net: multiset<Packet>, input: Option<(Address, Message)>, env: Env,
                  late: bool)
    requires x in c.nodes
    ensures var d, n' := After(c, x, net, input, env, late), Turn(x, PeersOf(c, x), c.nodes[x], input, env, late).0;
      && d.nodes == c.nodes[x := n'] && Ids(d) == Ids(c) && c.counted <= d.counted
      && (Runs(c.nodes[x], n') ==> Grant(x, n'.version, x) in d.counted)
      && d.wins == c.wins + (if c.nodes[x].role != Leader && n'.role == Leader then {Win(x, n'.version)} else {})
  {
    hide Turn, Grants, Counts;
  }

  lemma TurnCount(c: Cluster, x: Address, net: multiset<Packet>, input: Option<(Address, Message)>, env: Env,
                  late: bool, y: Address)
    requires Inv(c) && CountsAreTrue(c) && Arrives(c, x, net, input) && y in c.nodes
    ensures var d := After(c, x, net, input, env, late);
      y in d.nodes && (d.nodes[y].role == Candidate ==>
        |Tally(d, y, d.nodes[y].version)| == d.nodes[y].votes && Grant(y, d.nodes[y].version, y) in d.counted)
  {
    hide Turn, Grants, Counts, Tally, After, OneGrantPerVersion, GrantsAreDue, VotesAreFresh, PacketsAreProper;
    hide WinsAreMajorities, Quorum, InFavour;
    TurnParts(c, x, net, input, env, late);
    if y == x {
      TurnOfNode(x, PeersOf(c, x), c.nodes[x], input, env, late);
      CountedIsNew(c, x, net, input);
    }
    TurnTallies(c, x, net, input, env, late, y, After(c, x, net, input, env, late).nodes[y].version);
  }

  lemma TurnCounts(c: Cluster, x: Address, net: multiset<Packet>, input: Option<(Address, Message)>, env: Env,
                   late: bool)
    requires Inv(c) && Arrives(c, x, net, input)
    ensures CountsAreTrue(After(c, x, net, input, env, late))
  {
    hide Turn, Grants, Counts, Tally, After, OneGrantPerVersion, GrantsAreDue, VotesAreFresh, PacketsAreProper;
    hide WinsAreMajorities, Quorum, InFavour;
    CountedGrants(c, x, net, input, env, late);
    TurnParts(c, x, net, input, env, late);
    forall y | y in c.nodes {
      TurnCount(c, x, net, input, env, late, y);
    }
  }

  /** A new winner has counted a majority by now. */
  lemma TurnWinner(c: Cluster, x: Address, net: multiset<Packet>, input: Option<(Address, Message)>, env: Env,
                   late: bool)
    requires Inv(c) && CountsAreTrue(c) && Arrives(c, x, net, input)
    ensures var d := After(c, x, net, input, env, late);
      x in d.nodes && (c.nodes[x].role != Leader && d.nodes[x].role == Leader ==>
        |Tally(d, x, d.nodes[x].version)| >= Quorum(|Ids(d)| - 1))
  {
    hide Turn, Grants, Tally, After, OneGrantPerVersion, GrantsAreDue, VotesAreFresh, PacketsAreProper;
    hide WinsAreMajorities, Quorum, InFavour;
    TurnParts(c, x, net, input, env, late);
    TurnOfNode(x, PeersOf(c, x), c.nodes[x], input, env, late);
    CountedIsNew(c, x, net, input);
    TurnTallies(c, x, net, input, env, late, x, After(c, x, net, input, env, late).nodes[x].version);
    assert |PeersOf(c, x)| == |Ids(c)| - 1;
  }

  lemma TurnWins(c: Cluster, x: Address, net: multiset<Packet>, input: Option<(Address, Message)>, env: Env, late: bool)
    requires Inv(c) && WinsAreMajorities(c) && Arrives(c, x, net, input)
    ensures WinsAreMajorities(After(c, x, net, input, env, late))
  {
    hide Turn, Grants, Counts, Tally, After, OneGrantPerVersion, GrantsAreDue, VotesAreFresh, PacketsAreProper;
    hide CountsAreTrue, Quorum, InFavour;
    var d := After(c, x, net, input, env, late);
    TurnParts(c, x, net, input, env, late);
    TurnOfNode(x, PeersOf(c, x), c.nodes[x], input, env, late);
    TurnWinner(c, x, net, input, env, late);
    forall w | w in c.wins
      ensures w.leader in Ids(d) && |Tally(d, w.leader, w.version)| >= Quorum(|Ids(d)| - 1)
    {
      TurnTallies(c, x, net, input, env, late, w.leader, w.version);
      Smaller(Tally(c, w.leader, w.version), Tally(d, w.leader, w.version));
    }
  }

  lemma TurnKeeps(c: Cluster, x: Address, net: multiset<Packet>, input: Option<(Address, Message)>, env: Env,
                  late: bool)
    requires Inv(c) && Arrives(c, x, net, input)
    ensures Inv(After(c, x, net, input, env, late))
  {
    hide Turn, Grants, Counts, OneGrantPerVersion, GrantsAreDue, VotesAreFresh, PacketsAreProper, CountsAreTrue;
    hide WinsAreMajorities;
    TurnOfNode(x, PeersOf(c, x), c.nodes[x], input, env, late);
    TurnOneGrant(c, x, net, input, env, late);
    TurnGrantsDue(c, x, net, input, env, late);
    TurnVotesFresh(c, x, net, input, env, late);
    TurnPackets(c, x, net, input, env, late);
    TurnCounts(c, x, net, input, env, late);
    TurnWins(c, x, net, input, env, late);
  }

  /** Events that only touch the packets in flight. */
  lemma NetKeeps(c: Cluster, net: multiset<Packet>)
    requires Inv(c)
    requires forall p :: p in net ==>
      && p.from in Ids(c) && p.to in Ids(c) && p.from != p.to && p.msg.version <= c.nodes[p.from].version
      && (p.msg.body == AskForVote ==> p in c.net) && (InFavour(p) ==> p in c.net && net[p] <= c.net[p])
    ensures Inv(c.(net := net))
  {
  }

  lemma StepInv(c: Cluster, e: Event)
    requires Inv(c) && Enabled(c, e) && !RepeatsVote(e)
    ensures Inv(Apply(c, e)) && Ids(Apply(c, e)) == Ids(c)
  {
    hide Turn, Grants, Counts, OneGrantPerVersion, GrantsAreDue, PacketsAreProper, CountsAreTrue, WinsAreMajorities;
    hide Tally;
    match e
    case Deliver(p, env, late) => TurnKeeps(c, p.to, c.net - multiset{p}, Some((p.from, p.msg)), env, late);
    case Silence(x, late) => TurnKeeps(c, x, c.net, None, Env(false, false), late);
    case _ => PacketsStep(c, e);
  }

  lemma PacketsStep(c: Cluster, e: Event)
    requires Inv(c) && Enabled(c, e) && !e.Deliver? && !e.Silence? && !RepeatsVote(e)
    ensures Inv(Apply(c, e))
  {
    hide Turn, After, OneGrantPerVersion, GrantsAreDue, CountsAreTrue, WinsAreMajorities;
    NetKeeps(c, Apply(c, e).net);
  }

  /** Whatever happens to the nodes and the packets, as long as no vote in favour is repeated, the invariant holds. */
  lemma {:induction false} ReachableInv(ids: set<Address>, es: seq<Event>)
    requires NOBODY !in ids && Run(ids, es).Some? && VotesOnce(es)
    ensures Inv(Run(ids, es).value) && Ids(Run(ids, es).value) == ids
    decreases |es|
  {
    hide Inv, Enabled;
    if es == [] {
      StartInv(ids);
    } else {
      ReachableInv(ids, es[..|es| - 1]);
      StepInv(Run(ids, es[..|es| - 1]).value, es[|es| - 1]);
    }
  }

  /** Election safety: in every state that is reached without repeating a vote in favour, no two nodes have ever
      become leader with the same version. */
  lemma ElectionSafety(ids: set<Address>, es: seq<Event>, x: Address, y: Address, v: nat)
    requires NOBODY !in ids && Run(ids, es).Some? && VotesOnce(es)
    requires Win(x, v) in Run(ids, es).value.wins && Win(y, v) in Run(ids, es).value.wins
    ensures x == y
  {
    hide Run, Inv;
    ReachableInv(ids, es);
    UniqueWinner(Run(ids, es).value, x, y, v);
  }

  /** Victories and grants are never forgotten, versions never fall. */
  lemma StepGrows(c: Cluster, e: Event)
    requires Inv(c) && Enabled(c, e)
    ensures c.wins <= Apply(c, e).wins && c.grants <= Apply(c, e).grants
    ensures forall x :: x in c.nodes ==> x in Apply(c, e).nodes && c.nodes[x].version <= Apply(c, e).nodes[x].version
  {
    hide Turn, Grants, Counts, OneGrantPerVersion, GrantsAreDue, VotesAreFresh, PacketsAreProper, CountsAreTrue;
    hide WinsAreMajorities;
    match e
    case Deliver(p, env, late) => TurnOfNode(p.to, PeersOf(c, p.to), c.nodes[p.to], Some((p.from, p.msg)), env, late);
    case Silence(x, late) => TurnOfNode(x, PeersOf(c, x), c.nodes[x], None, Env(false, false), late);
    case _ =>
  }

  lemma {:induction false} RunGrows(ids: set<Address>, es: seq<Event>, i: nat)
    requires NOBODY !in ids && i <= |es| && Run(ids, es).Some? && VotesOnce(es)
    ensures Run(ids, es[..i]).Some? && VotesOnce(es[..i])
    ensures var b, c := Run(ids, es[..i]).value, Run(ids, es).value;
      && b.wins <= c.wins && b.grants <= c.grants && Ids(b) == Ids(c) == ids
      && forall x :: x in ids ==> b.nodes[x].version <= c.nodes[x].version
    decreases |es|
  {
    hide Inv, Enabled;
    ReachableInv(ids, es);
    if i == |es| {
      assert es[..i] == es;
    } else {
      var less := es[..|es| - 1];
      assert less[..i] == es[..i];
      RunGrows(ids, less, i);
      ReachableInv(ids, less);
      StepGrows(Run(ids, less).value, es[|es| - 1]);
    }
  }

  /** The same without the record: whoever leads with a version at any time of a run, nobody else
      leads with it at that or any other time. */
  lemma OneLeaderPerVersion(ids: set<Address>, es: seq<Event>, i: nat, j: nat, x: Address, y: Address)
    requires NOBODY !in ids && i <= |es| && j <= |es| && Run(ids, es).Some? && VotesOnce(es) && x in ids && y in ids
    requires Run(ids, es[..i]).Some? && Run(ids, es[..j]).Some?
    requires var c := Run(ids, es[..i]).value; x in c.nodes && c.nodes[x].role == Leader
    requires var d := Run(ids, es[..j]).value; y in d.nodes && d.nodes[y].role == Leader
    requires Run(ids, es[..i]).value.nodes[x].version == Run(ids, es[..j]).value.nodes[y].version
    ensures x == y
  {
    hide Run, RunFrom, Tally, OneGrantPerVersion, GrantsAreDue, VotesAreFresh, PacketsAreProper, CountsAreTrue;
    RunGrows(ids, es, i);
    RunGrows(ids, es, j);
    ReachableInv(ids, es[..i]);
    ReachableInv(ids, es[..j]);
    ElectionSafety(ids, es, x, y, Run(ids, es[..i]).value.nodes[x].version);
  }

  /** A node never has votes in favour of two candidates of one version in flight, nor votes for
      another while it runs itself with that version. */
  lemma OneVotePerVersion(ids: set<Address>, es: seq<Event>, p: Packet, q: Packet)
    requires NOBODY !in ids && Run(ids, es).Some? && VotesOnce(es)
    requires p in Run(ids, es).value.net && InFavour(p)
    ensures q in Run(ids, es).value.net && InFavour(q) && q.from == p.from && q.msg.version == p.msg.version ==> q == p
    ensures Run(ids, es).value.net[p] == 1
    ensures Grant(p.from, p.msg.version, p.from) !in Run(ids, es).value.grants
  {
    hide Run, RunFrom, Tally, GrantsAreDue, CountsAreTrue, WinsAreMajorities;
    ReachableInv(ids, es);
  }

  // ---- where a leader's checks come from ----

  /** Every check in flight was sent by the winner of its version. */
  ghost predicate ChecksFromWinners(c: Cluster) {
    forall p :: p in c.net && p.msg.body == LeaderCheck ==> Win(p.from, p.msg.version) in c.wins
  }

  /** A leader is made to step down by a message, and in the same turn of its loop still repeats its check. */
  predicate Stale(c: Cluster, e: Event) {
    && Enabled(c, e) && e.Deliver? && e.late
    && var n := c.nodes[e.p.to];
      n.role == Leader && !n.halted && e.p.msg.version > n.version && e.p.msg.body in {AskForVote, LeaderCheck}
  }

  lemma TurnChecks(me: Address, peers: set<Address>, n: Node, input: Option<(Address, Message)>, env: Env, late: bool,
                   p: Packet)
    requires var (n', out) := Turn(me, peers, n, input, env, late); p in out
    requires p.msg.body == LeaderCheck
    ensures p.from == me && p.msg.version == Turn(me, peers, n, input, env, late).0.version
    ensures n.role == Leader || Turn(me, peers, n, input, env, late).0.role == Leader
  {
  }

  lemma StepDown(me: Address, peers: set<Address>, n: Node, im: (Address, Message), env: Env, late: bool)
    requires n.role == Leader && !n.halted && Tidy(n)
    ensures var (n', out) := Turn(me, peers, n, Some(im), env, late);
      if im.1.version > n.version && im.1.body in {AskForVote, LeaderCheck} then
        && n'.role == Follower && n'.version > n.version
        && (late ==> forall y :: y in peers ==> Packet(me, y, Message(LeaderCheck, n'.version)) in out)
        && (!late ==> forall p :: p in out ==> p.msg.body != LeaderCheck)
      else n'.role == Leader && n'.version == n.version
  {
  }

  /** Nobody has won a version above its own. */
  lemma WinsAreDue(c: Cluster, x: Address, v: nat)
    requires Inv(c) && Win(x, v) in c.wins
    ensures x in c.nodes && v <= c.nodes[x].version
  {
    hide VotesAreFresh, PacketsAreProper, OneGrantPerVersion, Tidy;
    var all := Tally(c, x, v);
    assert all != {};
    var y :| y in all;
    assert Grant(y, v, x) in c.grants;
  }

  lemma TurnOrigin(c: Cluster, x: Address, net: multiset<Packet>, input: Option<(Address, Message)>, env: Env,
                   late: bool)
    requires Inv(c) && ChecksFromWinners(c) && Arrives(c, x, net, input)
    requires !(input.Some? && late && !c.nodes[x].halted && c.nodes[x].role == Leader
      && input.value.1.version > c.nodes[x].version && input.value.1.body in {AskForVote, LeaderCheck})
    ensures ChecksFromWinners(After(c, x, net, input, env, late))
  {
    hide Turn, Grants, Counts, Tally, OneGrantPerVersion, GrantsAreDue, VotesAreFresh, PacketsAreProper, CountsAreTrue;
    var d := After(c, x, net, input, env, late);
    var out := Turn(x, PeersOf(c, x), c.nodes[x], input, env, late).1;
    TurnParts(c, x, net, input, env, late);
    TurnOfNode(x, PeersOf(c, x), c.nodes[x], input, env, late);
    forall p | p in d.net && p.msg.body == LeaderCheck
      ensures Win(p.from, p.msg.version) in d.wins
    {
      if p in out {
        TurnChecks(x, PeersOf(c, x), c.nodes[x], input, env, late, p);
        LeaderStays(c, x, input, env, late, p);
      } else {
        assert p in net && p in c.net;
      }
    }
  }

  lemma LeaderStays(c: Cluster, x: Address, input: Option<(Address, Message)>, env: Env, late: bool, p: Packet)
    requires x in c.nodes && Tidy(c.nodes[x])
    requires var (n', out) := Turn(x, PeersOf(c, x), c.nodes[x], input, env, late);
      p in out && p.msg.body == LeaderCheck
    requires !(input.Some? && late && !c.nodes[x].halted && c.nodes[x].role == Leader
      && input.value.1.version > c.nodes[x].version && input.value.1.body in {AskForVote, LeaderCheck})
    ensures Turn(x, PeersOf(c, x), c.nodes[x], input, env, late).0.role == Leader
  {
    if c.nodes[x].role == Leader && input.Some? && !c.nodes[x].halted {
      StepDown(x, PeersOf(c, x), c.nodes[x], input.value, env, late);
    }
  }

  /** The check of a winner makes any node that is no leader and not ahead of it the winner's follower; so a candidate
      that has lost gives up. */
  lemma WinnerIsFollowed(c: Cluster, p: Packet, env: Env, late: bool)
    requires Inv(c) && Enabled(c, Deliver(p, env, late)) && p.msg.body == LeaderCheck
    requires Win(p.from, p.msg.version) in c.wins
    requires var n := c.nodes[p.to]; !n.halted && n.role != Leader && n.version <= p.msg.version
    ensures var d := Apply(c, Deliver(p, env, late));
      && d.nodes == c.nodes[p.to := Node(Follower, p.from, p.msg.version, 0, false)]
      && d.net == c.net - multiset{p} +
           ToOne(p.to, p.from, Message(if env.needLogs then Request else FollowerAck, p.msg.version))
      && forall y :: Win(y, p.msg.version) in d.wins ==> y == p.from
  {
    hide Turn, Inv;
    AnswersCheck(p.to, PeersOf(c, p.to), c.nodes[p.to], p.from, p.msg.version, env, late);
    forall y | Win(y, p.msg.version) in c.wins
      ensures y == p.from
    {
      UniqueWinner(c, y, p.from, p.msg.version);
    }
  }

  /** Exactly when checks stay with the winners: unless a leader repeats its check after stepping down. */
  lemma ChecksStayUnlessStale(c: Cluster, e: Event)
    requires Inv(c) && ChecksFromWinners(c) && Enabled(c, e)
    ensures ChecksFromWinners(Apply(c, e)) <==> !Stale(c, e)
  {
    hide Turn, Grants, Counts, Tally, After, OneGrantPerVersion, GrantsAreDue, CountsAreTrue;
    match e
    case Deliver(p, env, late) =>
      if Stale(c, e) {
        StaleSends(c, e);
      } else {
        TurnOrigin(c, p.to, c.net - multiset{p}, Some((p.from, p.msg)), env, late);
      }
    case Silence(x, late) => TurnOrigin(c, x, c.net, None, Env(false, false), late);
    case _ =>
  }

  lemma StaleSends(c: Cluster, e: Event)
    requires Inv(c) && Stale(c, e)
    ensures !ChecksFromWinners(Apply(c, e))
    ensures var x := e.p.to; var d := Apply(c, e);
      x in d.nodes && d.nodes[x].role == Follower && forall y :: y in PeersOf(c, x) ==>
        Packet(x, y, Message(LeaderCheck, d.nodes[x].version)) in d.net
  {
    hide Turn, Grants, Counts, Tally, OneGrantPerVersion, GrantsAreDue, CountsAreTrue, WinsAreMajorities, VotesAreFresh;
    var p, x, n := e.p, e.p.to, c.nodes[e.p.to];
    var d := Apply(c, e);
    StepDown(x, PeersOf(c, x), n, (p.from, p.msg), e.env, e.late);
    TurnParts(c, x, c.net - multiset{p}, Some((p.from, p.msg)), e.env, e.late);
    var q := Packet(x, p.from, Message(LeaderCheck, d.nodes[x].version));
    assert p.from in PeersOf(c, x) && q in d.net;
    if Win(x, d.nodes[x].version) in c.wins {
      WinsAreDue(c, x, d.nodes[x].version);
      assert false;
    }
  }

  /** Along these events no leader repeats its check after stepping down. */
  predicate Prompt(ids: set<Address>, es: seq<Event>) {
    es == [] || (Prompt(ids, es[..|es| - 1])
      && match Run(ids, es[..|es| - 1])
         case None => false
         case Some(c) => !Stale(c, es[|es| - 1]))
  }

  lemma {:induction false} PromptChecks(ids: set<Address>, es: seq<Event>)
    requires NOBODY !in ids && Run(ids, es).Some? && VotesOnce(es) && Prompt(ids, es)
    ensures ChecksFromWinners(Run(ids, es).value)
    decreases |es|
  {
    hide Inv, Enabled, Stale, ChecksFromWinners;
    if es == [] {
      assert ChecksFromWinners(Start(ids)) by { NoChecks(ids); }
    } else {
      var less := es[..|es| - 1];
      PromptChecks(ids, less);
      ReachableInv(ids, less);
      ChecksStayUnlessStale(Run(ids, less).value, es[|es| - 1]);
    }
  }

  /** In a run without such repeats, a check of version v in flight is from the one node that won v. */
  lemma ChecksAreTheWinners(ids: set<Address>, es: seq<Event>, p: Packet, y: Address)
    requires NOBODY !in ids && Run(ids, es).Some? && VotesOnce(es) && Prompt(ids, es)
    requires p in Run(ids, es).value.net && p.msg.body == LeaderCheck
    ensures Win(y, p.msg.version) in Run(ids, es).value.wins <==> y == p.from
  {
    hide Run, RunFrom, Prompt, Inv;
    PromptChecks(ids, es);
    if Win(y, p.msg.version) in Run(ids, es).value.wins {
      ElectionSafety(ids, es, p.from, y, p.msg.version);
    }
  }

  lemma NoChecks(ids: set<Address>)
    ensures ChecksFromWinners(Start(ids))
  {
  }

  /** When checks come from winners, a leader ends itself exactly on the check of an older leader
      that it may not overrule; never on one of its own version. */
  lemma ExitsExactlyWhenOverruled(c: Cluster, p: Packet, env: Env, late: bool)
    requires Inv(c) && ChecksFromWinners(c) && Enabled(c, Deliver(p, env, late)) && !c.nodes[p.to].halted
    ensures var d := Apply(c, Deliver(p, env, late));
      p.to in d.nodes && (d.nodes[p.to].halted <==>
        c.nodes[p.to].role == Leader && p.msg.body == LeaderCheck && p.msg.version < c.nodes[p.to].version &&
          !env.canLead)
  {
    hide Grants, Counts, Tally, OneGrantPerVersion, GrantsAreDue, CountsAreTrue, VotesAreFresh;
    var n := c.nodes[p.to];
    TurnParts(c, p.to, c.net - multiset{p}, Some((p.from, p.msg)), env, late);
    if n.role == Leader && p.msg.body == LeaderCheck && p.msg.version == n.version {
      UniqueWinner(c, p.from, p.to, n.version);
      assert false;
    }
  }
}
