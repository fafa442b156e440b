/** One member of an election cluster: what it does with a message or a timeout, and the object that does it. */
module RaftNode {
  import opened Options

  /** 0 stands for the invalid address. */
  type Address = nat

  const NOBODY: Address := 0

  datatype Role = Leader | Candidate | Follower

  datatype Body = LeaderCheck | FollowerAck | AskForVote | Vote(choose: bool) | Request

  datatype Message = Message(body: Body, version: nat)

  datatype Packet = Packet(from: Address, to: Address, msg: Message)

  /** What the user's state machine answers about a message. */
  datatype Env = Env(canLead: bool, needLogs: bool)

  /** halted: the process ended itself on detecting two leaders. */
  datatype Node = Node(role: Role, leader: Address, version: nat, votes: nat, halted: bool)

  /** A majority of a cluster with that many peers and this node. */
  function Quorum(peers: nat): (q: nat)
    ensures 2 * q > peers + 1 && 2 * (q - 1) <= peers + 1
  {
    (peers + 1) / 2 + 1
  }

  function ToAll(me: Address, peers: set<Address>, msg: Message): multiset<Packet> {
    multiset(set p | p in peers :: Packet(me, p, msg))
  }

  function ToOne(me: Address, to: Address, msg: Message): multiset<Packet> {
    multiset{Packet(me, to, msg)}
  }

  // ---- what a message does, by its meaning ----

  predicate Outdated(n: Node, m: Message) {
    n.role != Leader && m.version < n.version
  }

  /** A vote is given only to a version above the voter's own. */
  predicate Grants(n: Node, m: Message, env: Env) {
    m.body == AskForVote && m.version > n.version && env.canLead
  }

  predicate Wins(n: Node, m: Message, peers: set<Address>) {
    n.role == Candidate && m.body == Vote(true) && !Outdated(n, m) && n.votes + 1 >= Quorum(|peers|)
  }

  /** A leader that hears of another leader, and can neither overrule it nor follow it, ends itself. */
  predicate Exits(n: Node, m: Message, env: Env) {
    && n.role == Leader && m.body == LeaderCheck
    && (m.version == n.version || (m.version < n.version && !env.canLead))
  }

  function Following(leader: Address, version: nat): Node {
    Node(Follower, leader, version, 0, false)
  }

  /** The state after a message, and the packets sent. */
  function React(me: Address, peers: set<Address>, n: Node, from: Address, m: Message, env: Env): (Node,
                 multiset<Packet>) {
    if Outdated(n, m) then (n, multiset{})
    else match m.body
      case AskForVote =>
        if m.version <= n.version then (n, ToOne(me, from, Message(Vote(false), n.version)))
        else if env.canLead then (Following(from, m.version), ToOne(me, from, Message(Vote(true), m.version)))
        else (Following(NOBODY, m.version), ToOne(me, from, Message(Vote(false), m.version)))
      case Vote(choose) =>
        if n.role != Candidate || !choose then (n, multiset{})
        else if Wins(n, m, peers) then
          (n.(role := Leader, leader := NOBODY, votes := 0), ToAll(me, peers, Message(LeaderCheck, n.version)))
        else (n.(votes := n.votes + 1), multiset{})
      case LeaderCheck =>
        if Exits(n, m, env) then (n.(halted := true), multiset{})
        else if m.version < n.version then (n, ToOne(me, from, Message(LeaderCheck, n.version)))
        else (Following(from, m.version),
          ToOne(me, from, Message(if env.needLogs then Request else FollowerAck, m.version)))
      case FollowerAck => (n, multiset{})
      case Request => (n, multiset{})
  }

  /** Running for leader after a silence. */
  function Campaign(me: Address, peers: set<Address>, n: Node): (Node, multiset<Packet>) {
    (Node(Candidate, NOBODY, n.version + 1, 1, n.halted), ToAll(me, peers, Message(AskForVote, n.version + 1)))
  }

  /** One turn of the work thread: a message or none came in, and late says that a leader's
      time to repeat its check had passed by the end of the turn. */
  function Turn(me: Address, peers: set<Address>, n: Node, input: Option<(Address, Message)>, env: Env,
                late: bool): (Node, multiset<Packet>) {
    if n.halted then (n, multiset{})
    else
      var (n1, out) := match input
        case Some(im) => React(me, peers, n, im.0, im.1, env)
        case None => if n.role == Leader then (n, multiset{}) else Campaign(me, peers, n);
      if n.role == Leader && late && !n1.halted then (n1, out + ToAll(me, peers, Message(LeaderCheck, n1.version)))
      else (n1, out)
  }

  /** A role other than candidate holds no votes. */
  predicate Tidy(n: Node) {
    (n.role != Candidate ==> n.votes == 0) && (n.role != Follower ==> n.leader == NOBODY)
  }

  // ---- what a turn comes to, case by case ----

  /** The repeated check of a leader whose time for it has passed. */
  function Again(me: Address, peers: set<Address>, n: Node, version: nat, late: bool): multiset<Packet> {
    if n.role == Leader && late then ToAll(me, peers, Message(LeaderCheck, version)) else multiset{}
  }

  /** A check of a newer leader is followed and answered, by candidates and followers also one of their own version;
      a leader overrules an older one if the state machine lets it, and else ends itself. */
  lemma AnswersCheck(me: Address, peers: set<Address>, n: Node, from: Address, v: nat, env: Env, late: bool)
    requires !n.halted
    ensures var (n', out) := Turn(me, peers, n, Some((from, Message(LeaderCheck, v))), env, late);
      if v > n.version || (v == n.version && n.role != Leader) then
        && n' == Node(Follower, from, v, 0, false)
        && out == ToOne(me, from, Message(if env.needLogs then Request else FollowerAck, v))
             + Again(me, peers, n, v, late)
      else if n.role != Leader then n' == n && out == multiset{}
      else if v < n.version && env.canLead then
        n' == n && out == ToOne(me, from, Message(LeaderCheck, n.version)) + Again(me, peers, n, n.version, late)
      else n' == n.(halted := true) && out == multiset{}
  {
  }

  /** A campaign above the own version, in whatever role: whoever may lead gets the vote and a follower, and whoever
      may not leaves a follower of nobody. Others are refused, outdated ones not even answered but by a leader. */
  lemma AnswersCampaign(me: Address, peers: set<Address>, n: Node, from: Address, v: nat, env: Env, late: bool)
    requires !n.halted
    ensures var (n', out) := Turn(me, peers, n, Some((from, Message(AskForVote, v))), env, late);
      if v > n.version then
        && n' == Node(Follower, if env.canLead then from else NOBODY, v, 0, false)
        && out == ToOne(me, from, Message(Vote(env.canLead), v)) + Again(me, peers, n, v, late)
      else if v == n.version || n.role == Leader then
        n' == n && out == ToOne(me, from, Message(Vote(false), n.version)) + Again(me, peers, n, n.version, late)
      else n' == n && out == multiset{}
  {
  }

  /** A candidate counts the votes in favour and leads as soon as more than half of the cluster is for it. */
  lemma AnswersVote(me: Address, peers: set<Address>, n: Node, from: Address, choose: bool, v: nat, env: Env,
                    late: bool)
    requires !n.halted
    ensures var (n', out) := Turn(me, peers, n, Some((from, Message(Vote(choose), v))), env, late);
      if n.role != Candidate || !choose || v < n.version then n' == n && out == Again(me, peers, n, n.version, late)
      else if 2 * (n.votes + 1) > |peers| + 1 then
        n' == Node(Leader, NOBODY, n.version, 0, false) && out == ToAll(me, peers, Message(LeaderCheck, n.version))
      else n' == n.(votes := n.votes + 1) && out == multiset{}
  {
  }

  /** Answers to a check change nothing. */
  lemma AnswersAck(me: Address, peers: set<Address>, n: Node, from: Address, m: Message, env: Env, late: bool)
    requires !n.halted && m.body in {FollowerAck, Request}
    ensures var (n', out) := Turn(me, peers, n, Some((from, m)), env, late);
      n' == n && out == Again(me, peers, n, n.version, late)
  {
  }

  /** After a silence all but leaders run for leader with the next version. */
  lemma AnswersSilence(me: Address, peers: set<Address>, n: Node, env: Env, late: bool)
    requires !n.halted
    ensures var (n', out) := Turn(me, peers, n, None, env, late);
      if n.role == Leader then n' == n && out == Again(me, peers, n, n.version, late)
      else
        && n' == Node(Candidate, NOBODY, n.version + 1, 1, false)
        && out == ToAll(me, peers, Message(AskForVote, n.version + 1))
  {
  }

  class RaftInstance {
    const address: Address
    const peers: set<Address>
    var role: Role
    var leader: Address
    var version: nat
    var votes: nat
    var halted: bool
    /** Everything handed to the transmitter so far. */
    var sent: multiset<Packet>

    function State(): Node
      reads this
    {
      Node(role, leader, version, votes, halted)
    }

    constructor (address: Address, peers: set<Address>)
      ensures State() == Following(NOBODY, 0) && sent == multiset{}
      ensures this.address == address && this.peers == peers
    {
      this.address, this.peers := address, peers;
      role, leader, version, votes, halted := Follower, NOBODY, 0, 0, false;
      sent := multiset{};
    }

    // ---- RaftTransmitter ----

    method SendTo(to: Address, body: Body)
      modifies this`sent
      ensures sent == old(sent) + ToOne(address, to, Message(body, version))
    {
      sent := sent + multiset{Packet(address, to, Message(body, version))};
    }

    method SendToPeers(body: Body)
      modifies this`sent
      ensures sent == old(sent) + ToAll(address, peers, Message(body, version))
    {
      var rest, done := peers, {};
      assert ToAll(address, {}, Message(body, version)) == multiset{};
      while rest != {}
        invariant done + rest == peers && done !! rest
        invariant sent == old(sent) + ToAll(address, done, Message(body, version))
        decreases rest
      {
        var peer :| peer in rest;
        SendTo(peer, body);
        ToAllMore(address, done, peer, Message(body, version));
        rest, done := rest - {peer}, done + {peer};
      }
      assert done == peers;
    }

    // ---- RaftAgent ----

    predicate CheckOutdated(m: Message)
      reads this
    {
      m.version < version
    }

    method BecomeCandidate()
      modifies this`role, this`leader, this`version, this`votes
      ensures State() == old(State()).(role := Candidate, leader := NOBODY, version := old(version) + 1, votes := 1)
    {
      role, leader := Candidate, NOBODY;
      version := version + 1;
      votes := 1;
    }

    method BecomeLeader()
      modifies this`role, this`leader, this`votes
      ensures State() == old(State()).(role := Leader, leader := NOBODY, votes := 0)
    {
      role, leader := Leader, NOBODY;
      votes := 0;
    }

    /** False when the process ended itself (assert_split_brain). */
    method ChangeLeaderTo(m: Message, from: Address) returns (alive: bool)
      requires !halted
      modifies this`role, this`leader, this`version, this`votes, this`halted
      ensures alive <==> !(m.version < old(version) || (m.version == old(version) && old(role) == Leader))
      ensures State() == if alive then Following(from, m.version) else old(State()).(halted := true)
    {
      if m.version < version || (m.version == version && role == Leader) {
        halted := true;
        return false;
      }
      role := Follower;
      leader := from;
      version := m.version;
      votes := 0;
      alive := true;
    }

    method RespondLeaderCheck(m: Message, env: Env)
      requires role == Follower
      modifies this`version, this`sent
      ensures State() == old(State()).(version := m.version)
      ensures sent == old(sent) +
        ToOne(address, leader, Message(if env.needLogs then Request else FollowerAck, m.version))
    {
      version := m.version;
      if !env.needLogs {
        SendTo(leader, FollowerAck);
        return;
      }
      SendTo(leader, Request);
    }

    method VoteToBeLeader()
      modifies this`role, this`leader, this`version, this`votes, this`sent
      ensures var (n, out) := Campaign(address, peers, old(State())); State() == n && sent == old(sent) + out
    {
      BecomeCandidate();
      SendToPeers(AskForVote);
    }

    method VoteTo(m: Message, from: Address, env: Env)
      requires !halted && m.body == AskForVote && !Outdated(State(), m)
      modifies this
      ensures var (n, out) := React(address, peers, old(State()), from, m, env); State() == n && sent == old(sent) + out
    {
      var canBeLeader := true;
      var asked := m.version > version;
      if asked {
        canBeLeader := env.canLead;
      }
      if asked && canBeLeader {
        var alive := ChangeLeaderTo(m, from);
        assert alive;
        SendTo(from, Vote(true));
      } else {
        if !canBeLeader {
          var alive := ChangeLeaderTo(m, NOBODY);
          assert alive;
        }
        SendTo(from, Vote(false));
      }
    }

    method AcceptVote(m: Message, from: Address)
      requires m.body.Vote? && !Outdated(State(), m)
      modifies this
      ensures forall env :: var (n, out) := React(address, peers, old(State()), from, m, env);
        State() == n && sent == old(sent) + out
    {
      if role != Candidate {
        return;
      }
      if !m.body.choose {
        return;
      }
      votes := votes + 1;
      if votes >= (|peers| + 1) / 2 + 1 {
        BecomeLeader();
        SendToPeers(LeaderCheck);
      }
    }

    /** The LeaderCheck branch shared by a candidate and a follower of somebody else. */
    method FollowNewLeader(m: Message, from: Address, env: Env)
      requires !halted && m.body == LeaderCheck && !Outdated(State(), m)
      requires role == Leader ==> !(m.version < version && env.canLead)
      modifies this
      ensures var (n, out) := React(address, peers, old(State()), from, m, env); State() == n && sent == old(sent) + out
    {
      var alive := ChangeLeaderTo(m, from);
      if alive {
        RespondLeaderCheck(m, env);
      }
    }

    method HandleMessagesFromFollower(m: Message, from: Address, env: Env)
      requires role == Leader && !halted
      modifies this
      ensures var (n, out) := React(address, peers, old(State()), from, m, env); State() == n && sent == old(sent) + out
    {
      match m.body {
        case FollowerAck =>
        case Request =>
        case AskForVote => VoteTo(m, from, env);
        case Vote(_) => AcceptVote(m, from);
        case LeaderCheck =>
          if m.version < version && env.canLead {
            SendTo(from, LeaderCheck);
          } else {
            FollowNewLeader(m, from, env);
          }
      }
    }

    method HandleMessagesFromLeader(m: Message, env: Env)
      requires role == Follower && !halted && Tidy(State())
      modifies this
      ensures var (n, out) := React(address, peers, old(State()), old(leader), m, env);
        State() == n && sent == old(sent) + out
    {
      if CheckOutdated(m) {
        return;
      }
      match m.body {
        case LeaderCheck => RespondLeaderCheck(m, env);
        case AskForVote => VoteTo(m, leader, env);
        case FollowerAck =>
        case Request =>
        case Vote(_) =>
      }
    }

    method HandleMessagesFromPeer(m: Message, from: Address, env: Env)
      requires role != Leader && !halted
      modifies this
      ensures var (n, out) := React(address, peers, old(State()), from, m, env); State() == n && sent == old(sent) + out
    {
      if CheckOutdated(m) {
        return;
      }
      match m.body {
        case AskForVote => VoteTo(m, from, env);
        case Vote(_) => AcceptVote(m, from);
        case LeaderCheck => FollowNewLeader(m, from, env);
        case FollowerAck =>
        case Request =>
      }
    }

    // ---- RaftInstance: one pass of each role's loop ----

    method LeaderThreadLoop(input: Option<(Address, Message)>, env: Env, late: bool)
      requires role == Leader && !halted
      modifies this
      ensures var (n, out) := Turn(address, peers, old(State()), input, env, late);
        State() == n && sent == old(sent) + out
    {
      if input.Some? {
        HandleMessagesFromFollower(input.value.1, input.value.0, env);
        if halted {
          return;
        }
      }
      if late {
        SendToPeers(LeaderCheck);
      }
    }

    method CandidateThreadLoop(input: Option<(Address, Message)>, env: Env)
      requires role == Candidate && !halted
      modifies this
      ensures forall late :: var (n, out) := Turn(address, peers, old(State()), input, env, late);
        State() == n && sent == old(sent) + out
    {
      if input.Some? {
        HandleMessagesFromPeer(input.value.1, input.value.0, env);
      } else {
        VoteToBeLeader();
      }
    }

    method FollowerThreadLoop(input: Option<(Address, Message)>, env: Env)
      requires role == Follower && !halted && Tidy(State())
      modifies this
      ensures forall late :: var (n, out) := Turn(address, peers, old(State()), input, env, late);
        State() == n && sent == old(sent) + out
    {
      if input.Some? {
        if input.value.0 == leader {
          HandleMessagesFromLeader(input.value.1, env);
        } else {
          HandleMessagesFromPeer(input.value.1, input.value.0, env);
        }
      } else {
        VoteToBeLeader();
      }
    }

    /** The work thread: one pass of the loop for the current role. */
    method WorkThread(input: Option<(Address, Message)>, env: Env, late: bool)
      requires Tidy(State())
      modifies this
      ensures var (n, out) := Turn(address, peers, old(State()), input, env, late);
        State() == n && sent == old(sent) + out
      ensures Tidy(State())
    {
      if halted {
        return;
      }
      match role {
        case Leader => LeaderThreadLoop(input, env, late);
        case Candidate => CandidateThreadLoop(input, env);
        case Follower => FollowerThreadLoop(input, env);
      }
    }

    method SynchronizeLogsToFollowers()
      modifies this`sent
      ensures sent == old(sent) + Synchronized(address, peers, State())
      ensures sent == old(sent) +
        if role == Leader && !halted then ToAll(address, peers, Message(LeaderCheck, version)) else multiset{}
    {
      if role == Leader && !halted {
        SendToPeers(LeaderCheck);
      }
    }
  }

  function Synchronized(me: Address, peers: set<Address>, n: Node): multiset<Packet> {
    if n.role == Leader && !n.halted then ToAll(me, peers, Message(LeaderCheck, n.version)) else multiset{}
  }

  lemma ToAllMore(me: Address, done: set<Address>, peer: Address, msg: Message)
    requires peer !in done
    ensures ToAll(me, done + {peer}, msg) == ToAll(me, done, msg) + ToOne(me, peer, msg)
  {
    var a, b := (set p | p in done :: Packet(me, p, msg)), (set p | p in done + {peer} :: Packet(me, p, msg));
    assert b == a + {Packet(me, peer, msg)};
  }
}
