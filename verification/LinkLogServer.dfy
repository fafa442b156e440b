/** Link nodes and their timers: each pair shares one flag cell, and whichever of the two is done with it
    second frees it. */
module LinkLogServers {
  import opened Options

  type ID = nat

  datatype Type = Invalid | Head | BranchHead | Fork | Follow | Decision | RpcFork | RpcFollow | RpcDecision

  datatype Error = Success | ExtraFollow | WrongType | ExtraDecision | ConflictingNode | NotRegister | AlreadyCreated

  /** A map iterator: it stands for one entry, told by its serial from later ones of the same id. */
  datatype Iter = Iter(id: ID, serial: nat)

  /** flag: the cell shared with the timer; serial: of this entry of the map. */
  datatype Node = Node(kind: Type, subtype: Type, created: bool, subDecision: bool, buf: nat,
                       parent: Option<Iter>, flag: nat, serial: nat)

  /** serial and id are the map iterator the timer holds. */
  datatype Timer = Timer(expire: nat, id: ID, serial: nat, flag: nat)

  /** What has happened to the children of an entry, named by its serial. */
  datatype Event = Registered(parent: nat, kind: Type, child: ID) | Decided(parent: nat)

  datatype Report = Report(id: ID, expire: nat, onCreate: bool)

  /** The kinds that get an entry of their own on registration. */
  predicate Local(t: Type) {
    t in {Invalid, Head, BranchHead, Fork, Follow, Decision}
  }

  /** The created nodes that write to buffer b. */
  ghost function Users(nodes: map<ID, Node>, b: nat): set<ID> {
    set id | id in nodes && nodes[id].created && nodes[id].buf == b
  }

  /** Who holds which cell: nodeOf and timerOf say which node and which timer, cells what is in it. */
  ghost predicate Shared(nodes: map<ID, Node>, timers: multiset<Timer>, cells: map<nat, bool>,
                         nodeOf: map<nat, ID>, timerOf: map<nat, Timer>) {
    && (forall id :: id in nodes ==> nodes[id].flag in nodeOf && nodeOf[nodes[id].flag] == id)
    && (forall c :: c in nodeOf ==> nodeOf[c] in nodes && nodes[nodeOf[c]].flag == c)
    && (forall t :: t in timers ==> timers[t] == 1 && t.flag in timerOf && timerOf[t.flag] == t)
    && (forall c :: c in timerOf ==> timerOf[c] in timers && timerOf[c].flag == c)
    && cells.Keys == nodeOf.Keys + timerOf.Keys
    && (forall c :: c in cells ==> (cells[c] <==> !(c in nodeOf && c in timerOf)))
    && (forall c :: c in nodeOf && c in timerOf ==>
         timerOf[c].id == nodeOf[c] && timerOf[c].serial == nodes[nodeOf[c]].serial)
    && (forall id :: id in nodes && !nodes[id].created ==> nodes[id].flag in timerOf)
  }

  /** The node has a timer running, due by now. */
  ghost predicate Due(nodes: map<ID, Node>, timerOf: map<nat, Timer>, id: ID, now: nat) {
    id in nodes && nodes[id].flag in timerOf && timerOf[nodes[id].flag].expire <= now
  }

  ghost predicate Reported(nodes: map<ID, Node>, timerOf: map<nat, Timer>, r: Report, now: nat) {
    && Due(nodes, timerOf, r.id, now) && r.expire == timerOf[nodes[r.id].flag].expire
    && r.onCreate == !nodes[r.id].created && (nodes[r.id].created || nodes[r.id].kind != Decision)
  }

  /** Who is told of what, once each, in the order of expiry. */
  ghost predicate ReportedAll(nodes: map<ID, Node>, timerOf: map<nat, Timer>, rs: seq<Report>, now: nat) {
    && (forall r :: r in rs <==> Reported(nodes, timerOf, r, now))
    && (forall i, j :: 0 <= i < j < |rs| ==> rs[i].expire <= rs[j].expire && rs[i] != rs[j])
  }

  /** Cells below next were allocated; each is in use or was freed, not both. */
  ghost predicate Allocated(cells: map<nat, bool>, freed: set<nat>, next: nat) {
    && (forall c :: c in cells || c in freed ==> c < next)
    && (forall c: nat :: c < next ==> (c in cells <==> c !in freed))
  }

  lemma AllocateOne(cells: map<nat, bool>, freed: set<nat>, next: nat)
    requires Allocated(cells, freed, next)
    ensures next !in cells && Allocated(cells[next := false], freed, next + 1)
  {
  }

  lemma FreeOne(cells: map<nat, bool>, freed: set<nat>, next: nat, c: nat)
    requires Allocated(cells, freed, next) && c in cells
    ensures c !in freed && c < next && Allocated(cells - {c}, freed + {c}, next)
    ensures Allocated(cells[c := true], freed, next)
  {
  }

  lemma IsMarked(nodes: map<ID, Node>, nextSerial: nat, buffers: nat, id: ID)
    requires Marked(nodes, nextSerial, buffers) && id in nodes
    ensures nodes[id].serial < nextSerial && (nodes[id].created ==> nodes[id].buf < buffers)
  {
  }

  lemma {:induction false} EarliestExists(q: multiset<Timer>) returns (t: Timer)
    requires |q| > 0
    ensures t in q && forall u :: u in q ==> t.expire <= u.expire
    decreases |q|
  {
    var x :| x in q;
    if |q| == 1 {
      assert q == multiset{x} + (q - multiset{x});
      t := x;
      assert forall u :: u in q ==> u == x;
    } else {
      var y := EarliestExists(q - multiset{x});
      t := if x.expire < y.expire then x else y;
      assert forall u :: u in q ==> u == x || u in q - multiset{x};
    }
  }

  lemma MarkedPut(nodes: map<ID, Node>, nextSerial: nat, buffers: nat, id: ID, node: Node, next': nat)
    requires Marked(nodes, nextSerial, buffers) && nextSerial <= next' && node.serial < next'
    requires (node.created ==> node.buf < buffers)
    ensures Marked(nodes[id := node], next', buffers) && Marked(nodes - {id}, nextSerial, buffers)
  {
  }

  ghost predicate Marked(nodes: map<ID, Node>, nextSerial: nat, buffers: nat) {
    forall id :: id in nodes ==> nodes[id].serial < nextSerial && (nodes[id].created ==> nodes[id].buf < buffers)
  }

  /** A new entry with a new cell and a new timer. */
  lemma SharedAdd(nodes: map<ID, Node>, timers: multiset<Timer>, cells: map<nat, bool>, nodeOf: map<nat, ID>,
                  timerOf: map<nat, Timer>,
                  id: ID, node: Node, t: Timer)
    requires Shared(nodes, timers, cells, nodeOf, timerOf) && id !in nodes && node.flag !in cells
    requires t.id == id && t.serial == node.serial && t.flag == node.flag
    ensures Shared(nodes[id := node], timers + multiset{t}, cells[t.flag := false], nodeOf[t.flag := id],
      timerOf[t.flag := t])
  {
    assert t !in timers;
  }

  lemma SharedSame(nodes: map<ID, Node>, timers: multiset<Timer>, cells: map<nat, bool>, nodeOf: map<nat, ID>,
                   timerOf: map<nat, Timer>,
                   id: ID, node: Node)
    requires Shared(nodes, timers, cells, nodeOf, timerOf) && id in nodes
    requires node.flag == nodes[id].flag && node.serial == nodes[id].serial && node.created == nodes[id].created
    ensures Shared(nodes[id := node], timers, cells, nodeOf, timerOf)
  {
  }

  /** The node gets another cell and timer; the first cell is left to the first timer. */
  lemma SharedRenew(nodes: map<ID, Node>, timers: multiset<Timer>, cells: map<nat, bool>, nodeOf: map<nat, ID>,
                    timerOf: map<nat, Timer>,
                    id: ID, node: Node, t: Timer)
    requires Shared(nodes, timers, cells, nodeOf, timerOf) && id in nodes && !nodes[id].created
    requires node.flag !in cells && t.id == id && t.serial == node.serial && t.flag == node.flag
    ensures nodes[id].flag in cells && !cells[nodes[id].flag]
    ensures var c := nodes[id].flag;
      Shared(nodes[id := node], timers + multiset{t}, cells[c := true][t.flag := false], (nodeOf - {c})[t.flag := id],
        timerOf[t.flag := t])
  {
    assert t !in timers;
  }

  /** The node is gone: its cell goes with it if the timer is done, or is left to the timer. */
  lemma SharedDrop(nodes: map<ID, Node>, timers: multiset<Timer>, cells: map<nat, bool>, nodeOf: map<nat, ID>,
                   timerOf: map<nat, Timer>, id: ID)
    requires Shared(nodes, timers, cells, nodeOf, timerOf) && id in nodes
    ensures nodes[id].flag in cells
    ensures var c := nodes[id].flag;
      Shared(nodes - {id}, timers, if cells[c] then cells - {c} else cells[c := true], nodeOf - {c}, timerOf)
  {
    var c := nodes[id].flag;
    assert c in nodeOf && nodeOf[c] == id;
    var cells' := if cells[c] then cells - {c} else cells[c := true];
    assert cells'.Keys == (nodeOf - {c}).Keys + timerOf.Keys;
  }

  /** The timer is gone: likewise. */
  lemma SharedExpire(nodes: map<ID, Node>, timers: multiset<Timer>, cells: map<nat, bool>, nodeOf: map<nat, ID>,
                     timerOf: map<nat, Timer>, t: Timer)
    requires Shared(nodes, timers, cells, nodeOf, timerOf) && t in timers
    requires t.flag in nodeOf ==> nodes[nodeOf[t.flag]].created
    ensures t.flag in cells && (!cells[t.flag] <==> t.flag in nodeOf)
    ensures var c := t.flag;
      Shared(nodes, timers - multiset{t}, if cells[c] then cells - {c} else cells[c := true], nodeOf, timerOf - {c})
  {
    var c := t.flag;
    var cells' := if cells[c] then cells - {c} else cells[c := true];
    assert cells'.Keys == nodeOf.Keys + (timerOf - {c}).Keys;
    forall u | u in timers - multiset{t}
      ensures (timers - multiset{t})[u] == 1 && u.flag in timerOf - {c} && timerOf[u.flag] == u
    {
      assert u in timers && u != t;
    }
  }

  /** The timer of a node not yet created is gone, and the node with it. */
  lemma SharedBoth(nodes: map<ID, Node>, timers: multiset<Timer>, cells: map<nat, bool>, nodeOf: map<nat, ID>,
                   timerOf: map<nat, Timer>, t: Timer)
    requires Shared(nodes, timers, cells, nodeOf, timerOf) && t in timers && t.flag in nodeOf
    ensures t.id in nodes && nodes[t.id].flag == t.flag && nodes[t.id].serial == t.serial && t.flag in cells
    ensures !cells[t.flag]
    ensures Shared(nodes - {t.id}, timers - multiset{t}, cells - {t.flag}, nodeOf - {t.flag}, timerOf - {t.flag})
  {
    var c := t.flag;
    assert timerOf[c] == t && nodeOf[c] == t.id;
    assert (cells - {c}).Keys == (nodeOf - {c}).Keys + (timerOf - {c}).Keys;
    forall u | u in timers - multiset{t}
      ensures (timers - multiset{t})[u] == 1 && u.flag in timerOf - {c} && timerOf[u.flag] == u
    {
      assert u in timers && u != t;
    }
  }

  // ---- the children of a node ----

  /** A parent has children of one kind, one child if that follows it, and none any more once a decision among
      them was created. */
  ghost predicate Regular(history: seq<Event>) {
    forall i, j :: 0 <= i < j < |history| && history[i].parent == history[j].parent && history[j].Registered? ==>
      history[i].Registered? && history[i].kind == history[j].kind && history[i].kind != Follow
  }

  /** What an entry still in the map remembers of event e. */
  ghost predicate Recalls(node: Node, e: Event) {
    e.parent == node.serial ==>
      if e.Registered? then node.subtype == e.kind != Invalid else node.subtype == Decision && node.subDecision
  }

  ghost predicate Lineage(nodes: map<ID, Node>, history: seq<Event>, nextSerial: nat) {
    && Regular(history)
    && (forall e :: e in history ==> e.parent < nextSerial)
    && (forall id, e :: id in nodes && e in history ==> Recalls(nodes[id], e))
    && (forall id :: id in nodes && nodes[id].subDecision ==> Decided(nodes[id].serial) in history)
    && (forall x, y :: x in nodes && y in nodes && x != y ==> nodes[x].serial != nodes[y].serial)
    && (forall id :: id in nodes ==> nodes[id].serial < nextSerial)
    && (forall id :: id in nodes && nodes[id].parent.Some? ==>
         Registered(nodes[id].parent.value.serial, nodes[id].kind, id) in history)
  }

  lemma RecallsSame(a: Node, b: Node, history: seq<Event>)
    requires a.serial == b.serial && a.subtype == b.subtype && a.subDecision == b.subDecision
    requires forall e :: e in history ==> Recalls(a, e)
    ensures forall e :: e in history ==> Recalls(b, e)
  {
  }

  /** An entry changes in ways that do not concern its children. */
  lemma LineageSame(nodes: map<ID, Node>, history: seq<Event>, next: nat, id: ID, node: Node)
    requires Lineage(nodes, history, next) && id in nodes && node.serial == nodes[id].serial
    requires node.parent == nodes[id].parent && node.kind == nodes[id].kind && node.subDecision == nodes[id].subDecision
    requires forall e :: e in history ==> Recalls(node, e)
    ensures Lineage(nodes[id := node], history, next)
  {
  }

  lemma LineageLess(nodes: map<ID, Node>, history: seq<Event>, next: nat, id: ID)
    requires Lineage(nodes, history, next)
    ensures Lineage(nodes - {id}, history, next)
  {
  }

  lemma LineageAdd(nodes: map<ID, Node>, history: seq<Event>, next: nat, id: ID, node: Node)
    requires Lineage(nodes, history, next) && id !in nodes && node.serial == next
    requires node.parent.Some? ==> Registered(node.parent.value.serial, node.kind, id) in history
    requires !node.subDecision
    ensures Lineage(nodes[id := node], history, next + 1)
  {
  }

  /** A child is registered under p, which has the kind of its children set by then. */
  lemma LineageRegister(nodes: map<ID, Node>, history: seq<Event>, next: nat, p: ID, kind: Type, child: ID)
    requires Lineage(nodes, history, next) && p in nodes && nodes[p].subtype == kind != Invalid
    requires kind == Decision ==> !nodes[p].subDecision
    requires kind == Follow ==> forall e :: e in history ==> e.parent != nodes[p].serial
    ensures Lineage(nodes, history + [Registered(nodes[p].serial, kind, child)], next)
  {
    var more := history + [Registered(nodes[p].serial, kind, child)];
    forall i | 0 <= i < |history| && history[i].parent == nodes[p].serial
      ensures more[i] == history[i] && more[i].Registered? && more[i].kind == kind && kind != Follow
    {
      assert history[i] in history && Recalls(nodes[p], history[i]);
    }
  }

  /** A decision under p is created. */
  lemma LineageDecide(nodes: map<ID, Node>, history: seq<Event>, next: nat, p: ID, child: ID)
    requires Lineage(nodes, history, next) && p in nodes && child in nodes && nodes[child].kind == Decision
    requires nodes[child].parent == Some(Iter(p, nodes[p].serial))
    ensures Lineage(nodes[p := nodes[p].(subDecision := true)], history + [Decided(nodes[p].serial)], next)
  {
    var e := Registered(nodes[p].serial, Decision, child);
    assert e in history && Recalls(nodes[p], e);
  }

  // ---- a pass over the timers ----

  /** The entry of the map still has the flag of the timer. */
  predicate Live(n: map<ID, Node>, t: Timer) {
    t.id in n && n[t.id].flag == t.flag
  }

  /** The nodes after a timer has expired: one that was never created goes. */
  function NodesAfter(n: map<ID, Node>, t: Timer): map<ID, Node> {
    if Live(n, t) && !n[t.id].created then n - {t.id} else n
  }

  /** What is reported then: a decision that was never created is not. */
  function ReportsOf(n: map<ID, Node>, t: Timer): seq<Report> {
    if Live(n, t) && (n[t.id].created || n[t.id].kind != Decision) then [Report(t.id, t.expire, !n[t.id].created)]
    else []
  }

  /** The timer that id had at first has been taken off. */
  ghost predicate Done(N: map<ID, Node>, F: map<nat, Timer>, ts: multiset<Timer>, id: ID) {
    id in N && N[id].flag in F && F[N[id].flag] !in ts
  }

  ghost predicate FiredTimers(T: multiset<Timer>, F: map<nat, Timer>, ts: multiset<Timer>, f: map<nat, Timer>,
                              now: nat) {
    && (forall t :: t in ts ==> t in T && ts[t] == T[t])
    && (forall t :: t in T && t !in ts ==> t.expire <= now)
    && (forall c :: c in f <==> c in F && F[c] in ts)
    && (forall c :: c in f ==> f[c] == F[c])
  }

  ghost predicate FiredNodes(N: map<ID, Node>, F: map<nat, Timer>, n: map<ID, Node>, ts: multiset<Timer>) {
    && (forall id :: id in n <==> id in N && (N[id].created || !Done(N, F, ts, id)))
    && (forall id :: id in n ==> n[id] == N[id])
  }

  ghost predicate FiredReports(N: map<ID, Node>, F: map<nat, Timer>, ts: multiset<Timer>, rs: seq<Report>, now: nat) {
    && (forall r :: r in rs <==> Reported(N, F, r, now) && Done(N, F, ts, r.id))
    && (forall i, j :: 0 <= i < j < |rs| ==> rs[i].expire <= rs[j].expire && rs[i] != rs[j])
    && (forall r, t :: r in rs && t in ts ==> r.expire <= t.expire)
  }

  /** Taking off timer t concerns its own node only. */
  lemma DoneMore(N: map<ID, Node>, T: multiset<Timer>, C: map<nat, bool>, O: map<nat, ID>, F: map<nat, Timer>,
                 n: map<ID, Node>, ts: multiset<Timer>, t: Timer, id: ID)
    requires Shared(N, T, C, O, F) && (forall u :: u in ts ==> u in T && ts[u] == T[u]) && t in ts
    requires FiredNodes(N, F, n, ts)
    ensures Done(N, F, ts - multiset{t}, id) <==>
      Done(N, F, ts, id) || (id == t.id && t.id in n && n[t.id].flag == t.flag)
    ensures id == t.id && id in n && n[id].flag == t.flag ==>
      && !Done(N, F, ts, id)
      && id in N
      && N[id].flag in F
      && F[N[id].flag] == t
  {
    assert T[t] == 1 && ts[t] == 1 && F[t.flag] == t;
    if id in N && N[id].flag in F && F[N[id].flag] == t {
      assert O[N[id].flag] == id;
    }
  }

  lemma FiredStepTimers(N: map<ID, Node>, T: multiset<Timer>, C: map<nat, bool>, O: map<nat, ID>, F: map<nat, Timer>,
                        ts: multiset<Timer>, f: map<nat, Timer>, t: Timer, now: nat)
    requires Shared(N, T, C, O, F) && FiredTimers(T, F, ts, f, now) && t in ts && t.expire <= now
    ensures FiredTimers(T, F, ts - multiset{t}, f - {t.flag}, now)
  {
    assert T[t] == 1 && F[t.flag] == t;
    assert forall u :: u in ts - multiset{t} <==> u in ts && u != t;
    assert forall c :: c in F && F[c] == t ==> c == t.flag;
  }

  lemma FiredStepNodes(N: map<ID, Node>, T: multiset<Timer>, C: map<nat, bool>, O: map<nat, ID>, F: map<nat, Timer>,
                       n: map<ID, Node>, ts: multiset<Timer>, f: map<nat, Timer>, t: Timer, now: nat)
    requires Shared(N, T, C, O, F) && FiredTimers(T, F, ts, f, now) && FiredNodes(N, F, n, ts) && t in ts
    ensures FiredNodes(N, F, NodesAfter(n, t), ts - multiset{t})
  {
    hide Shared, Done;
    forall id: ID {
      DoneMore(N, T, C, O, F, n, ts, t, id);
    }
  }

  lemma FiredStepReports(N: map<ID, Node>, T: multiset<Timer>, C: map<nat, bool>, O: map<nat, ID>, F: map<nat, Timer>,
                         n: map<ID, Node>, ts: multiset<Timer>, f: map<nat, Timer>, rs: seq<Report>, t: Timer, now: nat)
    requires Shared(N, T, C, O, F) && FiredTimers(T, F, ts, f, now) && FiredNodes(N, F, n, ts)
    requires FiredReports(N, F, ts, rs, now)
    requires t in ts && t.expire <= now && forall u :: u in ts ==> t.expire <= u.expire
    ensures FiredReports(N, F, ts - multiset{t}, rs + ReportsOf(n, t), now)
  {
    hide Shared, Done;
    var live := Live(n, t);
    var told := live && (n[t.id].created || n[t.id].kind != Decision);
    var x := Report(t.id, t.expire, told && !n[t.id].created);
    var all := rs + if told then [x] else [];
    assert all == rs + ReportsOf(n, t);
    forall r: Report
      ensures r in all <==> Reported(N, F, r, now) && Done(N, F, ts - multiset{t}, r.id)
    {
      DoneMore(N, T, C, O, F, n, ts, t, r.id);
      if r.id == t.id && live {
        assert Reported(N, F, r, now) <==> told && r == x;
      }
    }
    assert forall u :: u in ts - multiset{t} ==> u in ts;
    if told {
      DoneMore(N, T, C, O, F, n, ts, t, t.id);
      assert x !in rs;
    }
  }

  /** What a pass that began at N, T, C, O, F has come to. */
  ghost predicate Fired(N: map<ID, Node>, T: multiset<Timer>, F: map<nat, Timer>, n: map<ID, Node>,
                        ts: multiset<Timer>, f: map<nat, Timer>, rs: seq<Report>, now: nat) {
    FiredTimers(T, F, ts, f, now) && FiredNodes(N, F, n, ts) && FiredReports(N, F, ts, rs, now)
  }

  lemma FiredStep(N: map<ID, Node>, T: multiset<Timer>, C: map<nat, bool>, O: map<nat, ID>, F: map<nat, Timer>,
                  n: map<ID, Node>, ts: multiset<Timer>, f: map<nat, Timer>, rs: seq<Report>, t: Timer, now: nat)
    requires Shared(N, T, C, O, F) && Fired(N, T, F, n, ts, f, rs, now)
    requires t in ts && t.expire <= now && forall u :: u in ts ==> t.expire <= u.expire
    ensures Fired(N, T, F, NodesAfter(n, t), ts - multiset{t}, f - {t.flag}, rs + ReportsOf(n, t), now)
  {
    hide Shared, FiredTimers, FiredNodes, FiredReports, NodesAfter, ReportsOf;
    FiredStepTimers(N, T, C, O, F, ts, f, t, now);
    FiredStepNodes(N, T, C, O, F, n, ts, f, t, now);
    FiredStepReports(N, T, C, O, F, n, ts, f, rs, t, now);
  }

  /** When the earliest timer left is not due, the pass is over. */
  lemma FiredAll(N: map<ID, Node>, T: multiset<Timer>, C: map<nat, bool>, O: map<nat, ID>, F: map<nat, Timer>,
                 n: map<ID, Node>, ts: multiset<Timer>, f: map<nat, Timer>, rs: seq<Report>, now: nat)
    requires Shared(N, T, C, O, F) && Fired(N, T, F, n, ts, f, rs, now)
    requires forall u :: u in ts ==> u.expire > now
    ensures forall t :: ts[t] == if t.expire <= now then 0 else T[t]
    ensures n == map id | id in N && (N[id].created || !Due(N, F, id, now)) :: N[id]
    ensures ReportedAll(N, F, rs, now)
  {
    forall id: ID
      ensures Due(N, F, id, now) <==> Done(N, F, ts, id)
    {
    }
  }

  class LinkLogServer {
    var nodes: map<ID, Node>
    var timers: multiset<Timer>
    /** The flag cells now allocated. */
    var cells: map<nat, bool>
    var refs: seq<nat>
    var nextCell: nat
    var nextSerial: nat
    var reports: seq<Report>
    ghost var freed: set<nat>
    ghost var nodeOf: map<nat, ID>
    ghost var timerOf: map<nat, Timer>
    /** Every child registered and every decision created, in order. */
    ghost var history: seq<Event>

    ghost predicate Valid()
      reads this
    {
      && Shared(nodes, timers, cells, nodeOf, timerOf)
      && Allocated(cells, freed, nextCell)
      && |refs| > 0 && Counted(nodes, refs) && Marked(nodes, nextSerial, |refs|)
      && Lineage(nodes, history, nextSerial)
    }

    constructor (buffers: nat)
      requires buffers > 0
      ensures Valid() && nodes == map[] && timers == multiset{} && reports == [] && history == []
    {
      nodes, timers, cells, refs := map[], multiset{}, map[], seq(buffers, _ => 0);
      nextCell, nextSerial, reports := 0, 0, [];
      freed, nodeOf, timerOf, history := {}, map[], map[], [];
    }

    // ---- flag cells ----

    /** new bool(false) */
    method NewCell() returns (c: nat)
      modifies this`cells, this`nextCell
      ensures c == old(nextCell) && nextCell == c + 1 && cells == old(cells)[c := false]
    {
      c := nextCell;
      cells := cells[c := false];
      nextCell := nextCell + 1;
    }

    /** Using or freeing a cell needs that it is allocated. */
    method Free(c: nat)
      requires c in cells && c !in freed
      modifies this`cells, this`freed
      ensures cells == old(cells) - {c} && freed == old(freed) + {c}
    {
      cells := cells - {c};
      freed := freed + {c};
    }

    /** NodeMessage::destroy: the node is done with its cell. */
    method DestroyFlag(c: nat)
      requires c in cells && c !in freed
      modifies this`cells, this`freed
      ensures if old(cells)[c] then cells == old(cells) - {c} && freed == old(freed) + {c}
              else cells == old(cells)[c := true] && freed == old(freed)
    {
      if cells[c] {
        Free(c);
      } else {
        cells := cells[c := true];
      }
    }

    /** TimerData::check_timeout: the timer is done with its cell; true if the node is not. */
    method CheckTimeoutFlag(c: nat) returns (fires: bool)
      requires c in cells && c !in freed
      modifies this`cells, this`freed
      ensures fires <==> !old(cells)[c]
      ensures if fires then cells == old(cells)[c := true] && freed == old(freed)
              else cells == old(cells) - {c} && freed == old(freed) + {c}
    {
      if !cells[c] {
        cells := cells[c := true];
        return true;
      }
      Free(c);
      fires := false;
    }

    // ---- registering, creating and destroying nodes ----

    /** What a parent may register: one kind of children only, one follower, no decision after the first created. */
    static function Verdict(parent: Node, kind: Type, taken: bool): Error {
      if parent.subtype == Follow then ExtraFollow
      else if parent.subtype != Invalid && parent.subtype != kind then WrongType
      else if kind == Decision && parent.subDecision then ExtraDecision
      else if Local(kind) && taken then ConflictingNode
      else Success
    }

    /** A parent announces a child node, to be created before the timeout. */
    method RegisterLogger(parent: ID, kind: Type, id: ID, expire: nat) returns (state: Error)
      requires Valid() && parent in nodes && kind != Invalid
      modifies this
      ensures Valid() && reports == old(reports)
      ensures state == Verdict(old(nodes)[parent], kind, id in old(nodes))
      ensures var p := old(nodes)[parent];
        var marked := if p.subtype == Invalid then old(nodes)[parent := p.(subtype := kind)] else old(nodes);
        var entered := state == Success && Local(kind);
        && (entered ==> id !in old(nodes))
        && nodes == (if !entered then marked else marked[id :=
             Node(kind, Invalid, false, false, 0, Some(Iter(parent, p.serial)), old(nextCell), old(nextSerial))])
        && timers == (if !entered then old(timers) else
             old(timers) + multiset{Timer(expire, id, old(nextSerial), old(nextCell))})
        && cells == (if entered then old(cells)[old(nextCell) := false] else old(cells))
        && history == (if state == Success then old(history) + [Registered(p.serial, kind, id)] else old(history))
    {
      hide Shared, Counted, Allocated, Marked, Lineage;
      if nodes[parent].subtype == Follow {
        return ExtraFollow;
      }
      SetSubtype(parent, kind);
      if nodes[parent].subtype != kind {
        return WrongType;
      }
      if nodes[parent].subtype == Decision && nodes[parent].subDecision {
        return ExtraDecision;
      }
      state := EnterChild(parent, kind, id, expire);
    }

    /** The end of a registration: a local child gets its entry, unless the id is taken. */
    method EnterChild(parent: ID, kind: Type, id: ID, expire: nat) returns (state: Error)
      requires Valid() && parent in nodes && nodes[parent].subtype == kind != Invalid
      requires kind == Decision ==> !nodes[parent].subDecision
      requires kind == Follow ==> forall e :: e in history ==> e.parent != nodes[parent].serial
      modifies this
      ensures Valid() && reports == old(reports)
      ensures state == if Local(kind) && id in old(nodes) then ConflictingNode else Success
      ensures var entered := state == Success && Local(kind); var serial := old(nodes)[parent].serial;
        && nodes == (if !entered then old(nodes) else old(nodes)[id :=
             Node(kind, Invalid, false, false, 0, Some(Iter(parent, serial)), old(nextCell), old(nextSerial))])
        && timers == (if !entered then old(timers) else
             old(timers) + multiset{Timer(expire, id, old(nextSerial), old(nextCell))})
        && cells == (if entered then old(cells)[old(nextCell) := false] else old(cells))
        && history == (if state == Success then old(history) + [Registered(serial, kind, id)] else old(history))
    {
      hide Shared, Counted, Allocated, Marked, Lineage;
      var serial := nodes[parent].serial;
      LineageRegister(nodes, history, nextSerial, parent, kind, id);
      if Local(kind) {
        if id in nodes {
          return ConflictingNode;
        }
        history := history + [Registered(serial, kind, id)];
        var child := Node(kind, Invalid, false, false, 0, Some(Iter(parent, serial)), nextCell, nextSerial);
        LineageAdd(nodes, history, nextSerial, id, child);
        AddNode(id, child, expire);
      } else {
        history := history + [Registered(serial, kind, id)];
      }
      return Success;
    }

    /** The first child decides on the kind of children. */
    method SetSubtype(parent: ID, kind: Type)
      requires Valid() && parent in nodes
      modifies this`nodes, this`history
      ensures Valid() && history == old(history)
      ensures var p := old(nodes)[parent];
        nodes == if p.subtype == Invalid then old(nodes)[parent := p.(subtype := kind)] else old(nodes)
      ensures old(nodes)[parent].subtype == Invalid ==> forall e :: e in history ==> e.parent != nodes[parent].serial
    {
      hide Shared, Counted, Allocated, Marked, Lineage;
      if nodes[parent].subtype == Invalid {
        NoChildren(parent);
        LineageSame(nodes, history, nextSerial, parent, nodes[parent].(subtype := kind));
        SetParent(parent, nodes[parent].(subtype := kind), history);
      }
    }

    lemma NoChildren(parent: ID)
      requires Valid() && parent in nodes && nodes[parent].subtype == Invalid
      ensures forall e :: e in history ==> e.parent != nodes[parent].serial
    {
      assert forall e :: e in history ==> Recalls(nodes[parent], e);
    }

    /** Change what an entry knows of its children. */
    method SetParent(id: ID, node: Node, ghost happened: seq<Event>)
      requires Valid() && id in nodes && node.created == nodes[id].created && node.buf == nodes[id].buf
      requires node.flag == nodes[id].flag && node.serial == nodes[id].serial
      requires Lineage(nodes[id := node], happened, nextSerial)
      modifies this`nodes, this`history
      ensures Valid() && nodes == old(nodes)[id := node] && history == happened
    {
      hide Shared, Counted, Allocated, Marked, Users, Lineage;
      history := happened;
      CountedSame(nodes, nodes[id := node], refs);
      SharedSame(nodes, timers, cells, nodeOf, timerOf, id, node);
      IsMarked(nodes, nextSerial, |refs|, id);
      MarkedPut(nodes, nextSerial, |refs|, id, node, nextSerial);
      nodes := nodes[id := node];
    }

    /** A new entry, its flag cell and its timer. */
    method AddNode(id: ID, node: Node, expire: nat)
      requires Valid() && id !in nodes && (node.created ==> node.buf < |refs|)
      requires node.flag == nextCell && node.serial == nextSerial && Lineage(nodes[id := node], history, nextSerial + 1)
      modifies this`nodes, this`timers, this`cells, this`refs, this`nextCell, this`nextSerial, this`nodeOf, this`timerOf
      ensures Valid() && nodes == old(nodes)[id := node]
      ensures timers == old(timers) + multiset{Timer(expire, id, old(nextSerial), old(nextCell))}
      ensures cells == old(cells)[old(nextCell) := false]
    {
      hide Shared, Counted, Allocated, Marked, Users, Lineage;
      var t := Timer(expire, id, nextSerial, nextCell);
      Adding(id, node, t);
      refs := if node.created then refs[node.buf := refs[node.buf] + 1] else refs;
      nodeOf, timerOf := nodeOf[nextCell := id], timerOf[nextCell := t];
      nodes, timers, nextSerial := nodes[id := node], timers + multiset{t}, nextSerial + 1;
      var c := NewCell();
    }

    lemma Adding(id: ID, added: Node, t: Timer)
      requires Valid() && id !in nodes && (added.created ==> added.buf < |refs|)
      requires added.flag == nextCell && added.serial == nextSerial
      requires t.id == id && t.serial == nextSerial && t.flag == nextCell
      ensures nextCell !in cells && Allocated(cells[nextCell := false], freed, nextCell + 1)
      ensures Shared(nodes[id := added], timers + multiset{t}, cells[nextCell := false],
                     nodeOf[nextCell := id], timerOf[nextCell := t])
      ensures Marked(nodes[id := added], nextSerial + 1, |refs|)
      ensures Counted(nodes[id := added], if added.created then refs[added.buf := refs[added.buf] + 1] else refs)
    {
      hide Shared, Counted, Allocated, Marked, Users, Lineage;
      AllocateOne(cells, freed, nextCell);
      SharedAdd(nodes, timers, cells, nodeOf, timerOf, id, added, t);
      CountedMore(nodes, id, added, refs);
      MarkedPut(nodes, nextSerial, |refs|, id, added, nextSerial + 1);
    }

    /** The first of the buffers with the fewest nodes. */
    method GetBufferIter() returns (b: nat)
      requires |refs| > 0
      ensures b < |refs| && (forall k :: 0 <= k < |refs| ==> refs[b] <= refs[k])
      ensures forall k :: 0 <= k < b ==> refs[b] < refs[k]
    {
      b := 0;
      var k := 1;
      while k < |refs|
        invariant 1 <= k <= |refs| && b < k && forall j :: 0 <= j < k ==> refs[b] <= refs[j]
        invariant forall j :: 0 <= j < b ==> refs[b] < refs[j]
      {
        if refs[k] < refs[b] {
          b := k;
        }
        k := k + 1;
      }
    }

    /** A node without a parent, created at once. */
    method CreateHeadLogger(id: ID, isBranch: bool, expire: nat) returns (state: Error)
      requires Valid()
      modifies this
      ensures Valid() && reports == old(reports) && history == old(history)
      ensures state == if id in old(nodes) then ConflictingNode else Success
      ensures state == Success ==> id in nodes && nodes == old(nodes)[id := Node(if isBranch then BranchHead else Head,
        Invalid, true, false, nodes[id].buf, None, old(nextCell), old(nextSerial))]
      ensures state == Success ==> nodes[id].buf < |old(refs)| && forall k :: 0 <= k < |old(refs)| ==>
        old(refs)[nodes[id].buf] < old(refs)[k] || (old(refs)[nodes[id].buf] == old(refs)[k] && nodes[id].buf <= k)
      ensures state == Success ==>
        && timers == old(timers) + multiset{Timer(expire, id, old(nextSerial), old(nextCell))}
        && cells == old(cells)[old(nextCell) := false]
      ensures state != Success ==> nodes == old(nodes) && timers == old(timers) && cells == old(cells)
    {
      hide Shared, Counted, Allocated, Marked, Users, Lineage;
      if id in nodes {
        return ConflictingNode;
      }
      var b := GetBufferIter();
      var kind := if isBranch then BranchHead else Head;
      var node := Node(kind, Invalid, true, false, b, None, nextCell, nextSerial);
      LineageAdd(nodes, history, nextSerial, id, node);
      AddNode(id, node, expire);
      state := Success;
    }

    /** A registered node is created: its first cell is left to the timer, and it gets a new cell and timer. */
    method CreateLogger(id: ID, expire: nat) returns (state: Error)
      requires Valid() && (id in nodes && !nodes[id].created ==> ParentLives(id))
      modifies this
      ensures Valid() && reports == old(reports)
      ensures state ==
        if id !in old(nodes) then NotRegister else if old(nodes)[id].created then AlreadyCreated else Success
      ensures state == Success ==>
        && var was := old(nodes)[id]; var p := was.parent.value.id; var parent := old(nodes)[p];
        && nodes == (if was.kind == Decision then old(nodes)[p := parent.(subDecision := true)] else old(nodes))
             [id := was.(created := true, buf := parent.buf, flag := old(nextCell))]
        && timers == old(timers) + multiset{Timer(expire, id, was.serial, old(nextCell))}
        && was.flag in old(cells) && cells == old(cells)[was.flag := true][old(nextCell) := false]
        && history == old(history) + if was.kind == Decision then [Decided(parent.serial)] else []
      ensures state != Success ==>
        nodes == old(nodes) && timers == old(timers) && cells == old(cells) && history == old(history)
    {
      hide Shared, Counted, Allocated, Marked, Users, Lineage;
      if id !in nodes {
        return NotRegister;
      }
      if nodes[id].created {
        return AlreadyCreated;
      }
      var parent := nodes[id].parent.value.id;
      if nodes[id].kind == Decision {
        LineageDecide(nodes, history, nextSerial, parent, id);
        SetParent(parent, nodes[parent].(subDecision := true), history + [Decided(nodes[parent].serial)]);
      }
      IsMarked(nodes, nextSerial, |refs|, parent);
      Complete(id, nodes[parent].buf, expire);
      state := Success;
    }

    lemma StillRecalls(id: ID)
      requires Valid() && id in nodes
      ensures forall e :: e in history ==> Recalls(nodes[id], e)
    {
    }

    /** complete_message, destroy and create: the node is created, on buffer b. */
    method Complete(id: ID, b: nat, expire: nat)
      requires Valid() && id in nodes && !nodes[id].created && b < |refs|
      modifies this
      ensures Valid() && reports == old(reports) && history == old(history)
      ensures nodes == old(nodes)[id := old(nodes)[id].(created := true, buf := b, flag := old(nextCell))]
      ensures timers == old(timers) + multiset{Timer(expire, id, old(nodes)[id].serial, old(nextCell))}
      ensures old(nodes)[id].flag in old(cells)
      ensures cells == old(cells)[old(nodes)[id].flag := true][old(nextCell) := false]
      ensures old(nodes)[id].flag < old(nextCell)
    {
      hide Shared, Counted, Allocated, Marked, Users, Lineage;
      var first := nodes[id].flag;
      var t := Timer(expire, id, nodes[id].serial, nextCell);
      var node := nodes[id].(created := true, buf := b, flag := nextCell);
      Completing(id, node, t);
      CompletingCounts(id, node);
      refs := refs[b := refs[b] + 1];
      DestroyFlag(first);
      var c := NewCell();
      nodes := nodes[id := node];
      timers := timers + multiset{t};
      nodeOf, timerOf := (nodeOf - {first})[c := id], timerOf[c := t];
    }

    lemma Completing(id: ID, node: Node, t: Timer)
      requires Valid() && id in nodes && !nodes[id].created && node.created && node.buf < |refs|
      requires node == nodes[id].(created := true, buf := node.buf, flag := nextCell)
      requires t.id == id && t.serial == node.serial && t.flag == nextCell
      ensures var first := nodes[id].flag; var cells' := cells[first := true][nextCell := false];
        && first in cells && !cells[first] && first !in freed && first < nextCell && nextCell !in cells
        && Allocated(cells', freed, nextCell + 1)
        && Shared(nodes[id := node], timers + multiset{t}, cells', (nodeOf - {first})[nextCell := id],
             timerOf[nextCell := t])
    {
      hide Shared, Counted, Allocated, Marked, Lineage;
      AllocateOne(cells, freed, nextCell);
      SharedRenew(nodes, timers, cells, nodeOf, timerOf, id, node, t);
      FreeOne(cells, freed, nextCell, nodes[id].flag);
      AllocateOne(cells[nodes[id].flag := true], freed, nextCell);
    }

    lemma CompletingCounts(id: ID, node: Node)
      requires Valid() && id in nodes && !nodes[id].created && node.created && node.buf < |refs|
      requires node == nodes[id].(created := true, buf := node.buf, flag := nextCell)
      ensures Counted(nodes[id := node], refs[node.buf := refs[node.buf] + 1])
      ensures Marked(nodes[id := node], nextSerial, |refs|) && Lineage(nodes[id := node], history, nextSerial)
    {
      hide Shared, Counted, Allocated, Marked, Users, Lineage, Recalls;
      StillRecalls(id);
      RecallsSame(nodes[id], node, history);
      LineageSame(nodes, history, nextSerial, id, node);
      IsMarked(nodes, nextSerial, |refs|, id);
      CountedMore(nodes, id, node, refs);
      MarkedPut(nodes, nextSerial, |refs|, id, node, nextSerial);
    }

    /** The parent of a node not yet created is still the entry it was, and created itself. */
    ghost predicate ParentLives(id: ID)
      requires id in nodes
      reads this
    {
      var p := nodes[id].parent;
      && p.Some? && p.value.id in nodes && p.value.id != id
      && nodes[p.value.id].serial == p.value.serial && nodes[p.value.id].created
    }

    /** The end of a node. */
    method DestroyLogger(id: ID)
      requires Valid() && id in nodes && nodes[id].created
      modifies this
      ensures Valid() && reports == old(reports) && nodes == old(nodes) - {id} && timers == old(timers)
      ensures history == old(history)
    {
      hide Shared, Counted, Allocated, Marked, Users, Lineage;
      LineageLess(nodes, history, nextSerial, id);
      var flag, b := nodes[id].flag, nodes[id].buf;
      IsMarked(nodes, nextSerial, |refs|, id);
      SharedDrop(nodes, timers, cells, nodeOf, timerOf, id);
      CountedLess(nodes, id, refs);
      MarkedPut(nodes, nextSerial, |refs|, id, nodes[id], nextSerial);
      FreeOne(cells, freed, nextCell, flag);
      refs := refs[b := refs[b] - 1];
      DestroyFlag(flag);
      nodes := nodes - {id};
      nodeOf := nodeOf - {flag};
    }

    /** What may follow what e was: nothing after a follower or a created decision, else more of the same kind. */
    lemma Siblings(parent: ID, e: Event, kind: Type, taken: bool)
      requires Valid() && parent in nodes && e in history && e.parent == nodes[parent].serial
      ensures Verdict(nodes[parent], kind, taken) ==
        if e.Registered? && e.kind == Follow then ExtraFollow
        else if kind != (if e.Registered? then e.kind else Decision) then WrongType
        else if kind == Decision && Decided(e.parent) in history then ExtraDecision
        else if Local(kind) && taken then ConflictingNode
        else Success
    {
      hide Shared, Counted, Allocated, Marked, Regular;
      assert Recalls(nodes[parent], e);
      if Decided(e.parent) in history {
        assert Recalls(nodes[parent], Decided(e.parent));
      }
    }

    /** A new head node takes a first child of any kind, and one that has an entry can then be created. */
    method FirstChild(head: ID, isBranch: bool, kind: Type, id: ID, expire: nat)
      returns (made: Error, registered: Error, created: Error)
      requires Valid() && head !in nodes && kind != Invalid && (Local(kind) ==> id !in nodes && id != head)
      modifies this
      ensures Valid() && made == registered == Success && (Local(kind) <==> created == Success)
      ensures nodes.Keys == old(nodes).Keys + {head} + if Local(kind) then {id} else {}
      ensures Local(kind) ==> nodes[id].created && nodes[id].kind == kind && nodes[id].buf == nodes[head].buf
      ensures nodes[head].subDecision == (kind == Decision)
    {
      hide Shared, Counted, Allocated, Marked, Users, Lineage;
      made := CreateHeadLogger(head, isBranch, expire);
      registered := RegisterLogger(head, kind, id, expire);
      created := NotRegister;
      if Local(kind) {
        created := CreateLogger(id, expire);
      }
    }

    /** The handshake in plain terms. A cell is allocated exactly while the node or the timer that share it is
        not done with it, and false exactly while neither is; a timer whose cell is still false points at a live
        entry of the map holding that same cell; a node not created has a false cell. */
    lemma Handshake(c: nat)
      requires Valid() && c < nextCell
      ensures c in cells <==>
        (exists id :: id in nodes && nodes[id].flag == c) || (exists t :: t in timers && t.flag == c)
      ensures c in cells && !cells[c] <==>
        && (exists id :: id in nodes && nodes[id].flag == c)
        && (exists t :: t in timers && t.flag == c)
      ensures forall t :: t in timers && t.flag == c && !cells[c] ==>
        t.id in nodes && nodes[t.id].flag == c && nodes[t.id].serial == t.serial
      ensures forall id :: id in nodes && nodes[id].flag == c && !nodes[id].created ==> !cells[c]
      ensures c in cells <==> c !in freed
    {
      if c in nodeOf {
        assert nodeOf[c] in nodes && nodes[nodeOf[c]].flag == c;
      }
      if c in timerOf {
        assert timerOf[c] in timers && timerOf[c].flag == c;
      }
    }

    // ---- timers ----

    method Top() returns (t: Timer)
      requires |timers| > 0
      ensures t in timers && forall u :: u in timers ==> t.expire <= u.expire
    {
      ghost var e := EarliestExists(timers);
      t :| t in timers && forall u :: u in timers ==> t.expire <= u.expire;
    }

    /** One timer that is due: reported if its node still shares the cell, together with the node
        if that was never created. */
    method TimerFires(t: Timer)
      requires Valid() && t in timers
      modifies this
      ensures Valid() && timers == old(timers) - multiset{t} && timerOf == old(timerOf) - {t.flag}
      ensures history == old(history)
      ensures nodes == NodesAfter(old(nodes), t) && reports == old(reports) + ReportsOf(old(nodes), t)
    {
      hide Shared, Counted, Allocated, Marked, Users, Lineage;
      TimerShares(t);
      ghost var was := cells;
      FreeOne(cells, freed, nextCell, t.flag);
      var fires := CheckTimeoutFlag(t.flag);
      if fires {
        if nodes[t.id].created {
          SharedExpire(nodes, timers, was, nodeOf, timerOf, t);
          reports := reports + [Report(t.id, t.expire, false)];
          timerOf := timerOf - {t.flag};
        } else {
          NeverCreated(t, was);
        }
      } else {
        SharedExpire(nodes, timers, was, nodeOf, timerOf, t);
        timerOf := timerOf - {t.flag};
      }
      timers := timers - multiset{t};
    }

    lemma DropBoth(t: Timer, was: map<nat, bool>)
      requires t in timers && t.id in nodes && !nodes[t.id].created && t.flag in nodeOf && t.flag in was
      requires Shared(nodes, timers, was, nodeOf, timerOf) && Allocated(was, freed, nextCell)
      requires |refs| > 0 && Counted(nodes, refs) && Marked(nodes, nextSerial, |refs|)
      requires Lineage(nodes, history, nextSerial)
      ensures nodes[t.id].flag == t.flag && t.flag !in freed && was[t.flag := true] - {t.flag} == was - {t.flag}
      ensures Shared(nodes - {t.id}, timers - multiset{t}, was - {t.flag}, nodeOf - {t.flag}, timerOf - {t.flag})
      ensures Allocated(was - {t.flag}, freed + {t.flag}, nextCell)
      ensures Counted(nodes - {t.id}, refs) && Marked(nodes - {t.id}, nextSerial, |refs|)
      ensures Lineage(nodes - {t.id}, history, nextSerial)
    {
      hide Shared, Counted, Allocated, Marked, Users, Lineage;
      LineageLess(nodes, history, nextSerial, t.id);
      SharedBoth(nodes, timers, was, nodeOf, timerOf, t);
      IsMarked(nodes, nextSerial, |refs|, t.id);
      MarkedPut(nodes, nextSerial, |refs|, t.id, nodes[t.id], nextSerial);
      CountedLess(nodes, t.id, refs);
      FreeOne(was, freed, nextCell, t.flag);
    }

    /** The node of an expired timer was never created: it goes, with a report unless it is a decision. */
    method NeverCreated(t: Timer, ghost was: map<nat, bool>)
      requires t in timers && t.id in nodes && !nodes[t.id].created && t.flag in nodeOf
      requires t.flag in was && cells == was[t.flag := true]
      requires Shared(nodes, timers, was, nodeOf, timerOf) && Allocated(was, freed, nextCell)
      requires |refs| > 0 && Counted(nodes, refs) && Marked(nodes, nextSerial, |refs|)
      requires Lineage(nodes, history, nextSerial)
      modifies this`reports, this`cells, this`freed, this`nodes, this`nodeOf, this`timerOf
      ensures Shared(nodes, timers - multiset{t}, cells, nodeOf, timerOf) && Allocated(cells, freed, nextCell)
      ensures Counted(nodes, refs) && Marked(nodes, nextSerial, |refs|) && Lineage(nodes, history, nextSerial)
      ensures nodes == old(nodes) - {t.id} && timerOf == old(timerOf) - {t.flag}
      ensures reports == old(reports) + if old(nodes)[t.id].kind != Decision then [Report(t.id, t.expire, true)] else []
    {
      hide Shared, Counted, Allocated, Marked, Users, Lineage;
      DropBoth(t, was);
      if nodes[t.id].kind != Decision {
        reports := reports + [Report(t.id, t.expire, true)];
      }
      DestroyFlag(nodes[t.id].flag);
      nodes := nodes - {t.id};
      nodeOf, timerOf := nodeOf - {t.flag}, timerOf - {t.flag};
    }

    lemma TimerShares(t: Timer)
      requires Valid() && t in timers
      ensures t.flag in cells && t.flag in timerOf && timerOf[t.flag] == t
      ensures t.flag in nodeOf <==> t.id in nodes && nodes[t.id].flag == t.flag
      ensures t.flag in nodeOf ==> nodeOf[t.flag] == t.id && nodes[t.id].serial == t.serial && !cells[t.flag]
      ensures t.flag !in nodeOf ==> cells[t.flag]
    {
    }

    /** Every timer due by now is taken off. Reported are, once each and in order of expiry, the nodes that
        still shared their cell with one of them (decisions never created excepted); those never created go. */
    method CheckTimeout(now: nat)
      requires Valid()
      modifies this
      ensures Valid() && history == old(history)
      ensures forall t :: timers[t] == if t.expire <= now then 0 else old(timers)[t]
      ensures nodes == map id | id in old(nodes) &&
        (old(nodes)[id].created || !Due(old(nodes), old(timerOf), id, now)) :: old(nodes)[id]
      ensures exists rs :: reports == old(reports) + rs && ReportedAll(old(nodes), old(timerOf), rs, now)
    {
      hide Shared, Counted, Allocated, Marked, Lineage, Fired, ReportedAll, Due, NodesAfter, ReportsOf;
      ghost var N, T, C, O, F, R := nodes, timers, cells, nodeOf, timerOf, reports;
      ghost var rs: seq<Report> := [];
      NothingFired(now);
      var going := |timers| > 0;
      while going
        invariant Valid() && reports == R + rs && history == old(history)
        invariant Fired(N, T, F, nodes, timers, timerOf, rs, now)
        invariant going ==> |timers| > 0
        invariant !going ==> forall u :: u in timers ==> u.expire > now
        decreases |timers|, going
      {
        var t := Top();
        if t.expire > now {
          going := false;
        } else {
          FiredStep(N, T, C, O, F, nodes, timers, timerOf, rs, t, now);
          rs := rs + ReportsOf(nodes, t);
          TimerFires(t);
          going := |timers| > 0;
        }
      }
      FiredAll(N, T, C, O, F, nodes, timers, timerOf, rs, now);
    }

    lemma NothingFired(now: nat)
      requires Valid()
      ensures Fired(nodes, timers, timerOf, nodes, timers, timerOf, [], now)
    {
    }

    // ---- reference counts ----

    static ghost predicate Counted(nodes: map<ID, Node>, refs: seq<nat>) {
      forall b :: 0 <= b < |refs| ==> refs[b] == |Users(nodes, b)|
    }

    static lemma CountedSame(a: map<ID, Node>, b: map<ID, Node>, refs: seq<nat>)
      requires Counted(a, refs) && a.Keys == b.Keys && forall id :: id in a ==>
        && a[id].created == b[id].created
        && a[id].buf == b[id].buf
      ensures Counted(b, refs)
    {
      forall k | 0 <= k < |refs|
        ensures Users(a, k) == Users(b, k)
      {
      }
    }

    static lemma CountedMore(nodes: map<ID, Node>, id: ID, node: Node, refs: seq<nat>)
      requires Counted(nodes, refs) && (id in nodes ==> !nodes[id].created) && (node.created ==> node.buf < |refs|)
      ensures Counted(nodes[id := node], if node.created then refs[node.buf := refs[node.buf] + 1] else refs)
    {
      forall k | 0 <= k < |refs|
        ensures Users(nodes[id := node], k) == Users(nodes, k) + (if node.created && node.buf == k then {id} else {})
      {
      }
    }

    static lemma CountedLess(nodes: map<ID, Node>, id: ID, refs: seq<nat>)
      requires Counted(nodes, refs) && id in nodes && (nodes[id].created ==> nodes[id].buf < |refs|)
      ensures nodes[id].created ==> refs[nodes[id].buf] > 0
      ensures Counted(nodes - {id}, if nodes[id].created then refs[nodes[id].buf := refs[nodes[id].buf] - 1] else refs)
    {
      forall k | 0 <= k < |refs|
        ensures Users(nodes, k) == Users(nodes - {id}, k) +
          (if nodes[id].created && nodes[id].buf == k then {id} else {})
      {
      }
      if nodes[id].created {
        assert id in Users(nodes, nodes[id].buf);
      }
    }
  }
}
