/** The doubly linked list with stable nodes: the pointers always spell out one sequence of nodes. */
module Lists {

  class Node<T> {
    var data: T
    var prev: Node?<T>
    var next: Node?<T>

    constructor (data: T)
      ensures this.data == data && prev == null && next == null
    {
      this.data, prev, next := data, null, null;
    }
  }

  ghost predicate Distinct<T>(s: seq<T>) {
    forall i, j :: 0 <= i < j < |s| ==> s[i] != s[j]
  }

  ghost function NodeAt<T>(s: seq<Node<T>>, i: int): Node?<T> {
    if 0 <= i < |s| then s[i] else null
  }

  ghost predicate Spells<T>(s: seq<Node<T>>)
    reads s
  {
    forall i :: 0 <= i < |s| ==> s[i].prev == NodeAt(s, i - 1) && s[i].next == NodeAt(s, i + 1)
  }

  /** The pointers of a list as values, to speak of them after they have been changed. */
  datatype Pointers<T> = Pointers(prev: map<Node<T>, Node?<T>>, next: map<Node<T>, Node?<T>>)

  ghost predicate Spelled<T>(s: seq<Node<T>>, p: Pointers<T>) {
    forall i :: 0 <= i < |s| ==>
      && s[i] in p.prev && p.prev[s[i]] == NodeAt(s, i - 1)
      && s[i] in p.next && p.next[s[i]] == NodeAt(s, i + 1)
  }

  ghost function PointersOf<T>(s: seq<Node<T>>): Pointers<T>
    reads s
  {
    Pointers(map n | n in s :: n.prev, map n | n in s :: n.next)
  }

  lemma SpelledNow<T>(s: seq<Node<T>>)
    requires Spells(s)
    ensures var p := PointersOf(s);
      Spelled(s, p) && forall n :: n in s ==> n in p.prev && p.prev[n] == n.prev && n in p.next && p.next[n] == n.next
  {
  }

  /** The neighbours of position i. */
  lemma Around<T>(s: seq<Node<T>>, i: nat)
    requires i <= |s| && Distinct(s)
    ensures var before, at := NodeAt(s, i - 1), NodeAt(s, i);
      && (before != null ==> before in s) && (at != null ==> at in s)
      && (before == null <==> i == 0) && (at == null <==> i == |s|)
      && (NodeAt(s, 0) == at <==> i == 0 || s == []) && (NodeAt(s, |s| - 1) == before <==> i == |s| || s == [])
      && (before != null && at != null ==> before != at)
  {
    if i < |s| { assert NodeAt(s, i) == s[i]; }
    if i > 0 { assert NodeAt(s, i - 1) == s[i - 1]; }
  }

  lemma NodesInserted<T>(s: seq<Node<T>>, i: nat, ptr: Node<T>, t: seq<Node<T>>)
    requires i <= |s| && Distinct(s) && ptr !in s && t == s[..i] + [ptr] + s[i..]
    ensures Distinct(t) && |t| == |s| + 1
    ensures forall k: int {:trigger NodeAt(t, k)} ::
      NodeAt(t, k) == if k < i then NodeAt(s, k) else if k == i then ptr else NodeAt(s, k - 1)
  {
  }

  lemma NodesRemoved<T>(s: seq<Node<T>>, i: nat, j: nat, t: seq<Node<T>>)
    requires i <= j <= |s| && Distinct(s) && t == s[..i] + s[j..]
    ensures Distinct(t) && |t| == |s| - (j - i)
    ensures forall k: int {:trigger NodeAt(t, k)} ::
      NodeAt(t, k) == if k < i then NodeAt(s, k) else NodeAt(s, k + (j - i))
  {
  }

  /** What the pointers spell, one node at a time. */
  lemma SpelledAt<T>(s: seq<Node<T>>, p: Pointers<T>, i: nat)
    requires Spelled(s, p) && i < |s|
    ensures NodeAt(s, i) == s[i] && s[i] in s && s[i] in p.prev && s[i] in p.next
    ensures p.prev[s[i]] == NodeAt(s, i - 1) && p.next[s[i]] == NodeAt(s, i + 1)
  {
  }

  lemma SameNode<T>(s: seq<Node<T>>, i: int, k: nat)
    requires Distinct(s) && k < |s|
    ensures s[k] == NodeAt(s, i) <==> i == k
  {
  }

  lemma InsertedSpells<T>(s: seq<Node<T>>, p: Pointers<T>, i: nat, ptr: Node<T>, t: seq<Node<T>>)
    requires i <= |s| && t == s[..i] + [ptr] + s[i..] && Distinct(s) && ptr !in s && ptr.prev == NodeAt(s, i - 1)
    requires ptr.next == NodeAt(s, i) && Spelled(s, p)
    requires forall n :: n in s ==> n in p.prev && n.prev == if n == NodeAt(s, i) then ptr else p.prev[n]
    requires forall n :: n in s ==> n in p.next && n.next == if n == NodeAt(s, i - 1) then ptr else p.next[n]
    ensures Distinct(t) && Spells(t)
    ensures NodeAt(t, 0) == (if i == 0 then ptr else NodeAt(s, 0))
    ensures NodeAt(t, |t| - 1) == (if i == |s| then ptr else NodeAt(s, |s| - 1))
  {
    hide NodeAt, Distinct, Spelled;
    NodesInserted(s, i, ptr, t);
    forall k | 0 <= k < |t|
      ensures t[k].prev == NodeAt(t, k - 1) && t[k].next == NodeAt(t, k + 1)
    {
      if k != i {
        var j := if k < i then k else k - 1;
        assert t[k] == s[j];
        SpelledAt(s, p, j);
        SameNode(s, i, j);
        SameNode(s, i - 1, j);
      }
    }
  }

  /** Nodes i to j - 1 are bypassed. */
  lemma RemovedSpells<T>(s: seq<Node<T>>, p: Pointers<T>, i: nat, j: nat, t: seq<Node<T>>)
    requires i <= j <= |s| && t == s[..i] + s[j..] && Distinct(s) && Spelled(s, p)
    requires forall n :: n in t ==> n in p.prev && n.prev == if n == NodeAt(s, j) then NodeAt(s, i - 1) else p.prev[n]
    requires forall n :: n in t ==> n in p.next && n.next == if n == NodeAt(s, i - 1) then NodeAt(s, j) else p.next[n]
    ensures Distinct(t) && Spells(t)
    ensures NodeAt(t, 0) == (if i == 0 then NodeAt(s, j) else NodeAt(s, 0))
    ensures NodeAt(t, |t| - 1) == (if j == |s| then NodeAt(s, i - 1) else NodeAt(s, |s| - 1))
  {
    hide NodeAt, Distinct, Spelled;
    NodesRemoved(s, i, j, t);
    forall k | 0 <= k < |t|
      ensures t[k].prev == NodeAt(t, k - 1) && t[k].next == NodeAt(t, k + 1)
    {
      var m := if k < i then k else k + (j - i);
      assert t[k] == s[m] && t[k] in t;
      RemovedAt(s, p, i, j, m);
    }
  }

  lemma RemovedAt<T>(s: seq<Node<T>>, p: Pointers<T>, i: nat, j: nat, m: nat)
    requires i <= j <= |s| && Distinct(s) && Spelled(s, p) && m < |s| && !(i <= m < j) && s[m] in p.prev
    requires s[m] in p.next
    requires s[m].prev == if s[m] == NodeAt(s, j) then NodeAt(s, i - 1) else p.prev[s[m]]
    requires s[m].next == if s[m] == NodeAt(s, i - 1) then NodeAt(s, j) else p.next[s[m]]
    ensures s[m].prev == NodeAt(s, if m == j then i - 1 else m - 1)
    ensures s[m].next == NodeAt(s, if m == i - 1 then j else m + 1)
  {
    hide NodeAt, Distinct, Spelled;
    SpelledAt(s, p, m);
    SameNode(s, j, m);
    SameNode(s, i - 1, m);
  }

  class List<T> {
    var head: Node?<T>
    var tail: Node?<T>
    var size: nat
    /** The nodes in order. */
    ghost var nodes: seq<Node<T>>

    ghost predicate Valid()
      reads this, nodes
    {
      && size == |nodes| && Distinct(nodes) && Spells(nodes)
      && head == NodeAt(nodes, 0) && tail == NodeAt(nodes, |nodes| - 1)
    }

    constructor ()
      ensures Valid() && nodes == []
    {
      head, tail, size, nodes := null, null, 0, [];
    }

    /** Put a node that is on no list in front of dest, the i-th node (at the end if dest is null). */
    method Link(dest: Node?<T>, ptr: Node<T>, ghost i: nat)
      requires Valid() && i <= |nodes| && dest == NodeAt(nodes, i) && ptr !in nodes
      modifies this, nodes, ptr
      ensures Valid() && nodes == old(nodes)[..i] + [ptr] + old(nodes)[i..]
      ensures ptr.data == old(ptr.data) && forall n :: n in old(nodes) ==> n.data == old(n.data)
    {
      hide Spells, Distinct, NodeAt, Spelled, PointersOf;
      ghost var s, p := nodes, PointersOf(nodes);
      SpelledNow(s);
      Around(s, i);
      PointersAt(s, p, i);
      if dest != null {
        ptr.prev := dest.prev;
        ptr.next := dest;
        dest.prev := ptr;
        if dest == head {
          head := ptr;
        } else {
          ptr.prev.next := ptr;
        }
      } else {
        ptr.prev := tail;
        ptr.next := null;
        if tail != null {
          tail.next := ptr;
        } else {
          head := ptr;
        }
        tail := ptr;
      }
      size := size + 1;
      nodes := s[..i] + [ptr] + s[i..];
      InsertedSpells(s, p, i, ptr, nodes);
    }

    lemma PointersAt(s: seq<Node<T>>, p: Pointers<T>, i: nat)
      requires Spelled(s, p) && i <= |s|
      ensures var at := NodeAt(s, i);
        at != null ==> at in p.prev && p.prev[at] == NodeAt(s, i - 1) && at in p.next && p.next[at] == NodeAt(s, i + 1)
      ensures i == |s| ==> NodeAt(s, i - 1) == NodeAt(s, |s| - 1)
    {
    }

    /** Take the i-th node off the list. */
    method Unlink(ptr: Node<T>, ghost i: nat)
      requires Valid() && i < |nodes| && nodes[i] == ptr
      modifies this, nodes
      ensures Valid() && nodes == old(nodes)[..i] + old(nodes)[i + 1..] && ptr !in nodes
      ensures forall n :: n in old(nodes) ==> n.data == old(n.data)
    {
      hide Spells, Distinct, NodeAt, Spelled, PointersOf;
      ghost var s, p := nodes, PointersOf(nodes);
      ghost var t := s[..i] + s[i + 1..];
      SpelledNow(s);
      Bypass(ptr, s, p, i, t);
      size := size - 1;
      nodes := t;
      RemovedSpells(s, p, i, i + 1, t);
    }

    /** The neighbours of the i-th node, and the ends of the list, no longer point at it. */
    method Bypass(ptr: Node<T>, ghost s: seq<Node<T>>, ghost p: Pointers<T>, ghost i: nat, ghost t: seq<Node<T>>)
      requires Distinct(s) && Spelled(s, p) && i < |s| && s[i] == ptr && t == s[..i] + s[i + 1..]
      requires forall n :: n in s ==> n in p.prev && p.prev[n] == n.prev && n in p.next && p.next[n] == n.next
      requires head == NodeAt(s, 0) && tail == NodeAt(s, |s| - 1)
      modifies this`head, this`tail, s
      ensures forall n :: n in t ==>
        n in p.prev && n.prev == if n == NodeAt(s, i + 1) then NodeAt(s, i - 1) else p.prev[n]
      ensures forall n :: n in t ==>
        n in p.next && n.next == if n == NodeAt(s, i - 1) then NodeAt(s, i + 1) else p.next[n]
      ensures head == if i == 0 then NodeAt(s, i + 1) else NodeAt(s, 0)
      ensures tail == if i + 1 == |s| then NodeAt(s, i - 1) else NodeAt(s, |s| - 1)
      ensures ptr !in t && |t| == |s| - 1 && forall n :: n in s ==> n.data == old(n.data)
    {
      hide Spells, Distinct, NodeAt, Spelled, PointersOf;
      SameNode(s, i, i);
      Around(s, i);
      Around(s, i + 1);
      PointersAt(s, p, i);
      Shorter(s, i, t);
      if ptr.next != null {
        ptr.next.prev := ptr.prev;
        if ptr.prev != null {
          ptr.prev.next := ptr.next;
        } else {
          head := ptr.next;
        }
      } else {
        tail := ptr.prev;
        if tail != null {
          tail.next := null;
        } else {
          head := null;
        }
      }
    }

    lemma Shorter(s: seq<Node<T>>, i: nat, t: seq<Node<T>>)
      requires i < |s| && Distinct(s) && t == s[..i] + s[i + 1..]
      ensures forall n :: n in t <==> n in s && n != s[i]
      ensures NodeAt(s, i - 1) != s[i] && NodeAt(s, i + 1) != s[i]
      ensures NodeAt(s, i - 1) != null && NodeAt(s, i + 1) != null ==> NodeAt(s, i - 1) != NodeAt(s, i + 1)
    {
    }

    // ---- the public operations ----

    method Insert(dest: Node?<T>, data: T, ghost i: nat) returns (n: Node<T>)
      requires Valid() && i <= |nodes| && dest == NodeAt(nodes, i)
      modifies this, nodes
      ensures Valid() && fresh(n) && n.data == data && nodes == old(nodes)[..i] + [n] + old(nodes)[i..]
      ensures forall m :: m in old(nodes) ==> m.data == old(m.data)
    {
      n := new Node(data);
      Link(dest, n, i);
    }

    /** The second form takes a node released before. */
    method InsertNode(dest: Node?<T>, n: Node<T>, ghost i: nat)
      requires Valid() && i <= |nodes| && dest == NodeAt(nodes, i) && n !in nodes
      modifies this, nodes, n
      ensures Valid() && n.data == old(n.data) && nodes == old(nodes)[..i] + [n] + old(nodes)[i..]
      ensures forall m :: m in old(nodes) ==> m.data == old(m.data)
    {
      n.prev, n.next := null, null;
      Link(dest, n, i);
    }

    method Erase(target: Node?<T>, ghost i: nat)
      requires Valid() && i <= |nodes| && target == NodeAt(nodes, i)
      modifies this, nodes
      ensures Valid() && nodes == if target == null then old(nodes) else old(nodes)[..i] + old(nodes)[i + 1..]
      ensures forall m :: m in old(nodes) ==> m.data == old(m.data)
    {
      if target == null {
        return;
      }
      Unlink(target, i);
    }

    /** The node is off the list, but lives on. */
    method Release(target: Node?<T>, ghost i: nat) returns (n: Node?<T>)
      requires Valid() && i <= |nodes| && target == NodeAt(nodes, i)
      modifies this, nodes
      ensures Valid() && n == target && (n != null ==> n !in nodes)
      ensures nodes == if target == null then old(nodes) else old(nodes)[..i] + old(nodes)[i + 1..]
      ensures forall m :: m in old(nodes) ==> m.data == old(m.data)
    {
      if target == null {
        return null;
      }
      Unlink(target, i);
      return target;
    }

    /** Take the i-th node and put it in front of dest, the j-th: the same nodes in another order. */
    method MoveTo(dest: Node?<T>, target: Node?<T>, ghost i: nat, ghost j: nat)
      requires Valid() && i <= |nodes| && j <= |nodes| && target == NodeAt(nodes, i) && dest == NodeAt(nodes, j)
      requires target != null ==> target != dest
      modifies this, nodes
      ensures Valid() && nodes == if target == null then old(nodes) else Moved(old(nodes), i, j)
      ensures multiset(nodes) == multiset(old(nodes)) && size == old(size)
      ensures forall m :: m in old(nodes) ==> m.data == old(m.data)
    {
      hide Spells, Distinct, NodeAt, Moved;
      ghost var s := nodes;
      Around(s, i);
      Around(s, j);
      if target == null {
        return;
      }
      NextIs(i);
      if target.next == dest {
        MovedNowhere(s, i, j);
        return;
      }
      NextIsNot(s, i, j);
      Unlink(target, i);
      ghost var k := if j <= i then j else j - 1;
      MovedIs(s, i, j, nodes);
      Link(dest, target, k);
    }

    lemma NextIs(i: nat)
      requires Valid() && i < |nodes|
      ensures nodes[i] == NodeAt(nodes, i) && nodes[i].next == NodeAt(nodes, i + 1) && nodes[i] in nodes
    {
    }

    lemma NextIsNot(s: seq<Node<T>>, i: nat, j: nat)
      requires Distinct(s) && i < |s| && j <= |s| && NodeAt(s, i + 1) != NodeAt(s, j) && NodeAt(s, i) != NodeAt(s, j)
      ensures i != j && i + 1 != j
    {
    }

    lemma MovedNowhere(s: seq<Node<T>>, i: nat, j: nat)
      requires Distinct(s) && i < |s| && j <= |s| && NodeAt(s, i + 1) == NodeAt(s, j) && NodeAt(s, i) != NodeAt(s, j)
      ensures j == i + 1 && Moved(s, i, j) == s
    {
    }

    lemma MovedIs(s: seq<Node<T>>, i: nat, j: nat, t: seq<Node<T>>)
      requires i < |s| && j <= |s| && i != j && i + 1 != j && t == s[..i] + s[i + 1..]
      ensures var k := if j <= i then j else j - 1;
        k <= |t| && NodeAt(t, k) == NodeAt(s, j) && Moved(s, i, j) == t[..k] + [s[i]] + t[k..]
      ensures multiset(Moved(s, i, j)) == multiset(s)
    {
      var k := if j <= i then j else j - 1;
      SamePlaces(s, i, j, t, k);
      Regroup(s[..i], s[i], s[i + 1..], s);
      Regroup(t[..k], s[i], t[k..], t[..k] + [s[i]] + t[k..]);
      assert t == t[..k] + t[k..];
    }

    lemma SamePlaces(s: seq<Node<T>>, i: nat, j: nat, t: seq<Node<T>>, k: nat)
      requires i < |s| && j <= |s| && i != j && t == s[..i] + s[i + 1..] && k == if j <= i then j else j - 1
      ensures k <= |t| && Moved(s, i, j) == t[..k] + [s[i]] + t[k..]
    {
    }

    lemma Regroup(a: seq<Node<T>>, x: Node<T>, b: seq<Node<T>>, all: seq<Node<T>>)
      requires all == a + [x] + b
      ensures multiset(all) == multiset(a + b) + multiset{x}
    {
    }

    /** Unlink the nodes i to j - 1. */
    method EraseRange(begin: Node?<T>, end: Node?<T>, ghost i: nat, ghost j: nat)
      requires Valid() && i <= j <= |nodes| && begin == NodeAt(nodes, i) && end == NodeAt(nodes, j)
      modifies this, nodes
      ensures Valid() && nodes == old(nodes)[..i] + old(nodes)[j..]
      ensures forall m :: m in old(nodes) ==> m.data == old(m.data)
    {
      hide Spells, Distinct, NodeAt, Spelled, PointersOf;
      ghost var s, p := nodes, PointersOf(nodes);
      ghost var t := s[..i] + s[j..];
      SpelledNow(s);
      Around(s, i);
      RangeOut(s, i, j, t);
      if begin == null {
        return;
      }
      BypassRange(begin, end, s, p, i, j, t);
      DeleteRange(begin, end, s, p, i, j);
      nodes := t;
      RemovedSpells(s, p, i, j, t);
    }

    /** The nodes before and behind the range point past it. */
    method BypassRange(begin: Node<T>, end: Node?<T>, ghost s: seq<Node<T>>, ghost p: Pointers<T>, ghost i: nat,
                       ghost j: nat, ghost t: seq<Node<T>>)
      requires Distinct(s) && Spelled(s, p) && i <= j <= |s| && begin == NodeAt(s, i) && end == NodeAt(s, j)
      requires t == s[..i] + s[j..]
      requires forall n :: n in s ==> n in p.prev && p.prev[n] == n.prev && n in p.next && p.next[n] == n.next
      requires head == NodeAt(s, 0) && tail == NodeAt(s, |s| - 1)
      modifies this`head, this`tail, s
      ensures forall n :: n in s ==> n in p.prev && n.prev == if n == NodeAt(s, j) then NodeAt(s, i - 1) else p.prev[n]
      ensures forall n :: n in s ==> n in p.next && n.next == if n == NodeAt(s, i - 1) then NodeAt(s, j) else p.next[n]
      ensures head == if i == 0 then NodeAt(s, j) else NodeAt(s, 0)
      ensures tail == if j == |s| then NodeAt(s, i - 1) else NodeAt(s, |s| - 1)
      ensures forall n :: n in s ==> n.data == old(n.data)
    {
      hide Spells, Distinct, NodeAt, Spelled, PointersOf;
      Around(s, i);
      Around(s, j);
      PointersAt(s, p, i);
      InRange(s, i, i, j);
      if begin.prev != null {
        begin.prev.next := end;
      } else {
        head := end;
      }
      if end != null {
        end.prev := begin.prev;
      } else {
        tail := begin.prev;
      }
    }

    /** Walk over the range, counting it off. */
    method DeleteRange(begin: Node?<T>, end: Node?<T>, ghost s: seq<Node<T>>, ghost p: Pointers<T>, ghost i: nat,
                       ghost j: nat)
      requires Distinct(s) && Spelled(s, p) && i <= j <= |s| && begin == NodeAt(s, i) && end == NodeAt(s, j)
      requires size == |s|
      requires forall n :: n in s ==> n in p.next && n.next == if n == NodeAt(s, i - 1) then NodeAt(s, j) else p.next[n]
      modifies this`size
      ensures size == |s| - (j - i)
    {
      hide Spells, Distinct, NodeAt, Spelled, PointersOf;
      ghost var k := i;
      var at: Node?<T> := begin;
      while at != end
        invariant i <= k <= j && at == NodeAt(s, k) && size == |s| - (k - i)
        decreases j - k
      {
        InRange(s, i, k, j);
        PointersAt(s, p, k);
        Around(s, k);
        at := at.next;
        size := size - 1;
        k := k + 1;
      }
      InRange(s, i, k, j);
    }

    lemma InRange(s: seq<Node<T>>, i: nat, k: nat, j: nat)
      requires Distinct(s) && i <= k <= j <= |s|
      ensures NodeAt(s, k) == NodeAt(s, j) <==> k == j
      ensures NodeAt(s, k) != null ==> NodeAt(s, k) != NodeAt(s, i - 1)
    {
    }

    lemma RangeOut(s: seq<Node<T>>, i: nat, j: nat, t: seq<Node<T>>)
      requires i <= j <= |s| && Distinct(s) && t == s[..i] + s[j..]
      ensures (forall n :: n in t ==> n in s) && (i == |s| ==> t == s) && |t| == |s| - (j - i)
    {
    }
  }

  /** The element now stands right in front of the one that was j-th, and the others keep their order. */
  lemma MovedMeans<T>(s: seq<T>, i: nat, j: nat)
    requires i < |s| && j <= |s|
    ensures var t, p := Moved(s, i, j), if j <= i then j else j - 1;
      && |t| == |s| && t[p] == s[i] && t[..p] + t[p + 1..] == s[..i] + s[i + 1..]
      && (j < |s| && j != i ==> p + 1 < |t| && t[p + 1] == s[j]) && (j == |s| ==> p + 1 == |t|)
  {
    var t, p := Moved(s, i, j), if j <= i then j else j - 1;
    if j <= i {
      assert t[..p] == s[..j] && t[p + 1..] == s[j..i] + s[i + 1..];
      assert s[..j] + s[j..i] == s[..i];
    } else {
      assert t[..p] == s[..i] + s[i + 1..j] && t[p + 1..] == s[j..];
      assert s[i + 1..j] + s[j..] == s[i + 1..];
    }
  }

  /** s with its i-th element moved in front of the j-th. */
  ghost function Moved<T>(s: seq<T>, i: nat, j: nat): seq<T>
    requires i < |s| && j <= |s|
  {
    if j <= i then s[..j] + [s[i]] + s[j..i] + s[i + 1..]
    else s[..i] + s[i + 1..j] + [s[i]] + s[j..]
  }
}
