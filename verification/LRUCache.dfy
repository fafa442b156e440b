/** A write-back cache in front of a plain store: pinned entries, entries to reuse first (temporary),
    entries to keep longest (persistent), and entries still to be written back (obsolete). */
module LRUCaches {

  // ---- lists of keys ----

  ghost predicate NoRepeats<K>(s: seq<K>) {
    forall i, j :: 0 <= i < j < |s| ==> s[i] != s[j]
  }

  /** The list without k. */
  function Without<K(==)>(s: seq<K>, k: K): (r: seq<K>)
    ensures k !in s ==> r == s
  {
    if s == [] then [] else if s[0] == k then s[1..] else [s[0]] + Without(s[1..], k)
  }

  lemma {:induction false} WithoutIs<K>(s: seq<K>, k: K)
    requires NoRepeats(s)
    ensures NoRepeats(Without(s, k)) && k !in Without(s, k)
    ensures forall x :: x in Without(s, k) <==> x in s && x != k
    ensures k in s ==> |Without(s, k)| == |s| - 1
    decreases |s|
  {
    if s != [] {
      var t := s[1..];
      assert NoRepeats(t) && s[0] !in t;
      assert forall x :: x in s <==> x == s[0] || x in t;
      WithoutIs(t, k);
      if s[0] != k {
        Headed(s[0], Without(t, k));
      }
    }
  }

  lemma Headed<K>(x: K, r: seq<K>)
    requires NoRepeats(r) && x !in r
    ensures NoRepeats([x] + r) && forall y :: y in [x] + r <==> y == x || y in r
  {
    assert forall i :: 0 <= i < |r| ==> r[i] in r;
  }

  lemma HeadFirst<K>(a: seq<K>, b: seq<K>)
    requires a != []
    ensures [a[0]] + (a[1..] + b) == a + b
  {
  }

  lemma {:induction false} WithoutAt<K>(a: seq<K>, k: K, b: seq<K>)
    requires NoRepeats(a + [k] + b)
    ensures Without(a + [k] + b, k) == a + b
    decreases |a|
  {
    var s := a + [k] + b;
    if a == [] {
      assert s[0] == k && s[1..] == b;
      assert a + b == b;
    } else {
      assert s[0] == a[0] && s[|a|] == k;
      assert s[1..] == a[1..] + [k] + b;
      assert NoRepeats(s[1..]);
      WithoutAt(a[1..], k, b);
      assert [a[0]] + (a[1..] + b) == a + b;
    }
  }

  /** The listed keys whose entries are dirty, or those whose entries are clean, in order. */
  ghost function Sift<K, V>(nodes: map<K, Node<V>>, s: seq<K>, dirty: bool): seq<K> {
    if s == [] then []
    else (if s[0] in nodes && nodes[s[0]].needUpdate == dirty then [s[0]] else []) + Sift(nodes, s[1..], dirty)
  }

  lemma {:induction false} SiftFrame<K, V>(a: map<K, Node<V>>, b: map<K, Node<V>>, s: seq<K>, dirty: bool)
    requires forall k :: k in s ==> k in a && k in b && a[k].needUpdate == b[k].needUpdate
    ensures Sift(a, s, dirty) == Sift(b, s, dirty)
    decreases |s|
  {
    if s != [] {
      SiftFrame(a, b, s[1..], dirty);
    }
  }

  lemma {:induction false} SiftPure<K, V>(nodes: map<K, Node<V>>, s: seq<K>, dirty: bool)
    requires forall k :: k in s ==> k in nodes && nodes[k].needUpdate == dirty
    ensures Sift(nodes, s, dirty) == s && Sift(nodes, s, !dirty) == []
    decreases |s|
  {
    if s != [] {
      SiftPure(nodes, s[1..], dirty);
    }
  }

  lemma {:induction false} SiftConcat<K, V>(nodes: map<K, Node<V>>, a: seq<K>, b: seq<K>, dirty: bool)
    ensures Sift(nodes, a + b, dirty) == Sift(nodes, a, dirty) + Sift(nodes, b, dirty)
    decreases |a|
  {
    if a == [] {
      assert a + b == b;
    } else {
      assert (a + b)[1..] == a[1..] + b;
      SiftConcat(nodes, a[1..], b, dirty);
    }
  }

  lemma {:induction false} SiftIn<K, V>(nodes: map<K, Node<V>>, s: seq<K>, dirty: bool)
    ensures forall k :: k in Sift(nodes, s, dirty) ==> k in s
    ensures forall k :: k in s && k in nodes && nodes[k].needUpdate == dirty ==> k in Sift(nodes, s, dirty)
    decreases |s|
  {
    if s != [] {
      SiftIn(nodes, s[1..], dirty);
      assert forall k :: k in s <==> k == s[0] || k in s[1..];
    }
  }

  lemma {:induction false} Sifted<K, V>(nodes: map<K, Node<V>>, s: seq<K>, dirty: bool)
    ensures forall k :: k in Sift(nodes, s, dirty) ==> k in s && k in nodes && nodes[k].needUpdate == dirty
    decreases |s|
  {
    if s != [] {
      Sifted(nodes, s[1..], dirty);
    }
  }

  /** The first clean entry behind i dirty ones is the first of the clean ones. */
  lemma {:induction false} FirstClean<K, V>(nodes: map<K, Node<V>>, s: seq<K>, i: nat)
    requires i < |s| && forall k :: k in s ==> k in nodes
    requires forall j :: 0 <= j < i ==> nodes[s[j]].needUpdate
    requires !nodes[s[i]].needUpdate
    ensures Sift(nodes, s, false) == [s[i]] + Sift(nodes, s[..i] + s[i + 1..], false)
    ensures Sift(nodes, s, true) == Sift(nodes, s[..i] + s[i + 1..], true)
    decreases i
  {
    var b := s[i + 1..];
    if i == 0 {
      assert s[..0] + b == s[1..];
    } else {
      FirstClean(nodes, s[1..], i - 1);
      var r := s[..i] + b;
      assert s[1..][i - 1] == s[i] && r[0] == s[0] && r[1..] == s[1..][..i - 1] + s[1..][i..];
    }
  }

  // ---- entries ----

  datatype Node<+V> = Node(value: V, needUpdate: bool, isPersistent: bool, pins: nat)

  /** An unpinned entry is on the list its kind says, a dirty one also on the obsolete list; a pinned one on none. */
  ghost predicate Listed<V>(n: Node<V>, inTemporary: bool, inPersistent: bool, inObsolete: bool) {
    && (inTemporary <==> n.pins == 0 && !n.isPersistent)
    && (inPersistent <==> n.pins == 0 && n.isPersistent)
    && (inObsolete <==> n.pins == 0 && n.needUpdate)
  }

  function ValueIn<K, V>(store: map<K, V>, blank: V, k: K): V {
    if k in store then store[k] else blank
  }

  function LogicalIn<K, V>(nodes: map<K, Node<V>>, store: map<K, V>, blank: V, k: K): V {
    if k in nodes then nodes[k].value else ValueIn(store, blank, k)
  }

  /** The lists hold what they should, and an entry that nobody has changed agrees with the store. */
  ghost predicate Sound<K(!new), V>(nodes: map<K, Node<V>>, store: map<K, V>, blank: V,
                                    temporary: seq<K>, persistent: seq<K>, obsolete: seq<K>, touched: set<K>) {
    && NoRepeats(temporary) && NoRepeats(persistent) && NoRepeats(obsolete)
    && (forall k :: k in temporary || k in persistent || k in obsolete ==> k in nodes)
    && (forall k :: k in nodes ==> Listed(nodes[k], k in temporary, k in persistent, k in obsolete))
    && (forall k :: k in touched ==> k in nodes && nodes[k].pins > 0)
    && (forall k :: k in nodes && !nodes[k].needUpdate && k !in touched ==> nodes[k].value == ValueIn(store, blank, k))
  }

  lemma Consed<T>(k: T, a: seq<T>, b: seq<T>, c: seq<T>)
    ensures [k] + (a + b + c) == [k] + a + b + c
  {
  }

  /** Dropping an unpinned entry, with its value written back if it is dirty. */
  lemma SoundDrop<K(!new), V>(nodes: map<K, Node<V>>, store: map<K, V>, blank: V,
                              temporary: seq<K>, persistent: seq<K>, obsolete: seq<K>, touched: set<K>, k: K)
    requires Sound(nodes, store, blank, temporary, persistent, obsolete, touched) && k in nodes && nodes[k].pins == 0
    ensures Sound(nodes - {k}, if nodes[k].needUpdate then store[k := nodes[k].value] else store, blank,
                  Without(temporary, k), Without(persistent, k), Without(obsolete, k), touched)
    ensures k in temporary <==> !nodes[k].isPersistent
    ensures k in persistent <==> nodes[k].isPersistent
    ensures k in obsolete <==> nodes[k].needUpdate
  {
    WithoutIs(temporary, k);
    WithoutIs(persistent, k);
    WithoutIs(obsolete, k);
  }

  /** Pinning an unpinned entry takes it off every list. */
  lemma SoundPin<K(!new), V>(nodes: map<K, Node<V>>, store: map<K, V>, blank: V,
                             temporary: seq<K>, persistent: seq<K>, obsolete: seq<K>, touched: set<K>, k: K)
    requires Sound(nodes, store, blank, temporary, persistent, obsolete, touched) && k in nodes && nodes[k].pins == 0
    ensures Sound(nodes[k := nodes[k].(pins := 1)], store, blank, Without(temporary, k), Without(persistent, k),
      Without(obsolete, k), touched)
    ensures k in temporary <==> !nodes[k].isPersistent
    ensures k in persistent <==> nodes[k].isPersistent
    ensures k in obsolete <==> nodes[k].needUpdate
  {
    WithoutIs(temporary, k);
    WithoutIs(persistent, k);
    WithoutIs(obsolete, k);
  }

  /** Another number of pins on a pinned entry concerns no list. */
  lemma SoundPinned<K(!new), V>(nodes: map<K, Node<V>>, store: map<K, V>, blank: V, temporary: seq<K>,
                                persistent: seq<K>, obsolete: seq<K>, touched: set<K>, k: K, node: Node<V>)
    requires Sound(nodes, store, blank, temporary, persistent, obsolete, touched)
    requires k in nodes && nodes[k].pins > 0 && node.pins > 0 && node == nodes[k].(pins := node.pins)
    ensures Sound(nodes[k := node], store, blank, temporary, persistent, obsolete, touched)
  {
  }

  /** Releasing the last pin puts the entry at the end of the lists where it belongs. */
  lemma SoundUnpin<K(!new), V>(nodes: map<K, Node<V>>, store: map<K, V>, blank: V,
                               temporary: seq<K>, persistent: seq<K>, obsolete: seq<K>, touched: set<K>, k: K,
                               lasting: bool)
    requires Sound(nodes, store, blank, temporary, persistent, obsolete, touched) && k in nodes && nodes[k].pins == 1
    requires k in touched ==> nodes[k].needUpdate
    ensures Sound(nodes[k := nodes[k].(pins := 0, isPersistent := lasting)], store, blank,
                  if lasting then temporary else temporary + [k], if lasting then persistent + [k] else persistent,
                  if nodes[k].needUpdate then obsolete + [k] else obsolete, touched - {k})
  {
  }

  /** Writing back an unpinned dirty entry makes it clean. */
  lemma SoundFlush<K(!new), V>(nodes: map<K, Node<V>>, store: map<K, V>, blank: V,
                               temporary: seq<K>, persistent: seq<K>, obsolete: seq<K>, touched: set<K>)
    requires Sound(nodes, store, blank, temporary, persistent, obsolete, touched) && obsolete != []
    ensures var k := obsolete[0];
      k in nodes && nodes[k].needUpdate && nodes[k].pins == 0
      && Sound(nodes[k := nodes[k].(needUpdate := false)], store[k := nodes[k].value], blank, temporary, persistent,
           obsolete[1..], touched)
  {
    var k := obsolete[0];
    assert k in obsolete && k !in obsolete[1..];
    assert forall x :: x in obsolete <==> x == k || x in obsolete[1..];
  }

  /** The order of the obsolete list does not matter. */
  lemma SoundOrder<K(!new), V>(nodes: map<K, Node<V>>, store: map<K, V>, blank: V,
                               temporary: seq<K>, persistent: seq<K>, obsolete: seq<K>, touched: set<K>, order: seq<K>)
    requires Sound(nodes, store, blank, temporary, persistent, obsolete, touched)
    requires multiset(order) == multiset(obsolete)
    ensures Sound(nodes, store, blank, temporary, persistent, order, touched)
  {
    NoRepeatsCount(obsolete);
    forall i, j | 0 <= i < j < |order|
      ensures order[i] != order[j]
    {
      Twice(order, i, j);
      assert multiset(order)[order[i]] <= 1;
    }
    assert forall x :: x in order <==> x in multiset(order);
    assert forall x :: x in obsolete <==> x in multiset(obsolete);
  }

  lemma {:induction false} NoRepeatsCount<K(!new)>(s: seq<K>)
    requires NoRepeats(s)
    ensures forall k :: multiset(s)[k] <= 1
    decreases |s|
  {
    if s != [] {
      assert s == [s[0]] + s[1..];
      NoRepeatsCount(s[1..]);
      assert s[0] !in multiset(s[1..]);
    }
  }

  lemma Twice<K>(s: seq<K>, i: nat, j: nat)
    requires i < j < |s|
    ensures s[i] == s[j] ==> multiset(s)[s[i]] >= 2
  {
    assert s == s[..i] + [s[i]] + s[i + 1..j] + [s[j]] + s[j + 1..];
  }

  ghost function Pinned<K, V>(nodes: map<K, Node<V>>): set<K> {
    set k | k in nodes && nodes[k].pins > 0
  }

  lemma {:induction false} Fewer<K>(a: set<K>, b: set<K>)
    requires a <= b
    ensures |a| <= |b|
    decreases |a|
  {
    if a != {} {
      var x :| x in a;
      Fewer(a - {x}, b - {x});
    }
  }

  /** Of all, those not in rest have been added to the sequence, once each. */
  ghost predicate Told<K(!new)>(all: set<K>, rest: set<K>, was: seq<K>, now: seq<K>) {
    multiset(now) == multiset(was) + multiset(all - rest)
  }

  ghost function Having<K, V>(nodes: map<K, Node<V>>, dirty: bool): set<K> {
    set k | k in nodes && nodes[k].needUpdate == dirty
  }

  lemma NoneTold<K(!new), V>(nodes: map<K, Node<V>>, released: seq<K>, written: seq<K>)
    ensures Told(nodes.Keys, nodes.Keys, released, released)
    ensures Told(Having(nodes, true), nodes.Keys, written, written)
  {
    assert nodes.Keys - nodes.Keys == {} && Having(nodes, true) - nodes.Keys == {};
  }

  lemma ToldMore<K(!new), V>(nodes: map<K, Node<V>>, rest: set<K>, key: K, released0: seq<K>, released: seq<K>,
                             written0: seq<K>, written: seq<K>)
    requires key in rest && key in nodes && Told(nodes.Keys, rest, released0, released)
    requires Told(Having(nodes, true), rest, written0, written)
    ensures Told(nodes.Keys, rest - {key}, released0, released + [key])
    ensures Told(Having(nodes, true), rest - {key}, written0,
                 if nodes[key].needUpdate then written + [key] else written)
  {
    OneOut(nodes.Keys, rest, key);
    OneOut(Having(nodes, true), rest, key);
  }

  lemma OneOut<K(!new)>(all: set<K>, rest: set<K>, key: K)
    requires key in rest
    ensures multiset(all - (rest - {key})) == multiset(all - rest) + if key in all then multiset{key} else multiset{}
  {
    assert all - (rest - {key}) == (all - rest) + if key in all then {key} else {};
  }

  lemma AllTold<K(!new)>(all: set<K>, was: seq<K>, now: seq<K>)
    requires Told(all, {}, was, now)
    ensures multiset(now) == multiset(was) + multiset(all)
  {
    assert all - {} == all;
  }

  // ---- dropping entries ----

  /** The list without the keys not to keep. */
  ghost function Among<K>(s: seq<K>, keep: set<K>): seq<K> {
    if s == [] then [] else (if s[0] in keep then [s[0]] else []) + Among(s[1..], keep)
  }

  lemma {:induction false} AmongAll<K>(s: seq<K>, keep: set<K>)
    requires forall k :: k in s ==> k in keep
    ensures Among(s, keep) == s
    decreases |s|
  {
    if s != [] {
      AmongAll(s[1..], keep);
    }
  }

  lemma {:induction false} AmongSame<K>(s: seq<K>, a: set<K>, b: set<K>)
    requires forall k :: k in s ==> (k in a <==> k in b)
    ensures Among(s, a) == Among(s, b)
    decreases |s|
  {
    if s != [] {
      AmongSame(s[1..], a, b);
    }
  }

  lemma WithoutCons<K>(x: K, t: seq<K>, k: K)
    ensures Without([x] + t, k) == if x == k then t else [x] + Without(t, k)
  {
    assert ([x] + t)[1..] == t;
  }

  lemma AmongCons<K>(s: seq<K>, keep: set<K>)
    requires s != []
    ensures Among(s, keep) == if s[0] in keep then [s[0]] + Among(s[1..], keep) else Among(s[1..], keep)
  {
  }

  lemma {:induction false} AmongLess<K>(s: seq<K>, keep: set<K>, k: K)
    requires NoRepeats(s)
    ensures Among(s, keep - {k}) == Without(Among(s, keep), k)
    decreases |s|
  {
    if s == [] {
      return;
    }
    hide Among, Without;
    var t := s[1..];
    assert NoRepeats(t) && s[0] !in t;
    AmongCons(s, keep);
    AmongCons(s, keep - {k});
    WithoutCons(s[0], Among(t, keep), k);
    if s[0] == k {
      AmongSame(t, keep, keep - {k});
      AmongIn(t, keep);
    } else {
      AmongLess(t, keep, k);
    }
  }

  lemma {:induction false} AmongIn<K>(s: seq<K>, keep: set<K>)
    ensures forall k :: k in Among(s, keep) <==> k in s && k in keep
    decreases |s|
  {
    if s != [] {
      AmongIn(s[1..], keep);
      assert forall k :: k in s <==> k == s[0] || k in s[1..];
    }
  }

  /** x stands before y. */
  ghost predicate Precedes<K>(s: seq<K>, x: K, y: K) {
    exists i, j :: 0 <= i < j < |s| && s[i] == x && s[j] == y
  }

  lemma {:induction false} AmongAt<K>(s: seq<K>, keep: set<K>, j: nat) returns (b: nat)
    requires j < |Among(s, keep)|
    ensures b < |s| && s[b] == Among(s, keep)[j]
    decreases |s|
  {
    var d := if s[0] in keep then 1 else 0;
    if j < d {
      b := 0;
    } else {
      b := AmongAt(s[1..], keep, j - d);
      b := b + 1;
    }
  }

  /** Keys kept keep their order. */
  lemma {:induction false} AmongOrder<K>(s: seq<K>, keep: set<K>, i: nat, j: nat)
    requires i < j < |Among(s, keep)|
    ensures Precedes(s, Among(s, keep)[i], Among(s, keep)[j])
    decreases |s|
  {
    var t, d := s[1..], if s[0] in keep then 1 else 0;
    if i < d {
      var b := AmongAt(t, keep, j - d);
      assert s[b + 1] == t[b];
    } else {
      AmongOrder(t, keep, i - d, j - d);
      var a, b :| 0 <= a < b < |t| && t[a] == Among(t, keep)[i - d] && t[b] == Among(t, keep)[j - d];
      assert s[a + 1] == t[a] && s[b + 1] == t[b];
    }
  }

  lemma {:induction false} SiftIsAmong<K, V>(nodes: map<K, Node<V>>, s: seq<K>, dirty: bool)
    ensures Sift(nodes, s, dirty) == Among(s, Having(nodes, dirty))
    decreases |s|
  {
    if s != [] {
      SiftIsAmong(nodes, s[1..], dirty);
    }
  }

  /** A cache between two steps; order: the entries it may drop. */
  datatype State<K, V> = State(nodes: map<K, Node<V>>, store: map<K, V>, blank: V, released: seq<K>, written: seq<K>,
                               temporary: seq<K>, persistent: seq<K>, obsolete: seq<K>, order: seq<K>)

  /** k, the first that may be dropped, is, written back if it is dirty; the others keep their order. */
  ghost predicate Evicts<K, V>(s: State<K, V>, t: State<K, V>, k: K) {
    && k in s.nodes && s.nodes[k].pins == 0 && t.nodes == s.nodes - {k} && t.blank == s.blank
    && t.released == s.released + [k] && s.order == [k] + t.order
    && (if s.nodes[k].needUpdate then t.store == s.store[k := s.nodes[k].value] && t.written == s.written + [k]
        else t.store == s.store && t.written == s.written && s.nodes[k].value == ValueIn(s.store, s.blank, k))
    && t.temporary == Without(s.temporary, k) && t.persistent == Without(s.persistent, k)
    && t.obsolete == Without(s.obsolete, k)
  }

  /** n entries were dropped from s, those first in order. */
  ghost predicate DroppedFirst<K, V>(s: State<K, V>, t: State<K, V>, n: nat) {
    && n <= |s.order| && t.order == s.order[n..] && |t.nodes| + n == |s.nodes|
    && t.released == s.released + s.order[..n] && t.written == s.written + Sift(s.nodes, s.order[..n], true)
  }

  ghost predicate RestKept<K, V>(s: State<K, V>, t: State<K, V>) {
    && t.nodes.Keys <= s.nodes.Keys && (forall k :: k in t.nodes ==> t.nodes[k] == s.nodes[k])
    && (forall k :: k in s.nodes && s.nodes[k].pins > 0 ==> k in t.nodes)
    && t.temporary == Among(s.temporary, t.nodes.Keys) && t.persistent == Among(s.persistent, t.nodes.Keys)
    && t.obsolete == Among(s.obsolete, t.nodes.Keys)
  }

  /** The store has the values of what was dropped, and is otherwise as it was. */
  ghost predicate StoreKept<K(!new), V>(s: State<K, V>, t: State<K, V>) {
    forall k :: ValueIn(t.store, t.blank, k) ==
      if k in s.nodes && k !in t.nodes then s.nodes[k].value else ValueIn(s.store, s.blank, k)
  }

  ghost predicate Reserved<K(!new), V>(s: State<K, V>, t: State<K, V>, n: nat) {
    DroppedFirst(s, t, n) && RestKept(s, t) && StoreKept(s, t)
  }

  lemma DroppedMore<K, V>(s: State<K, V>, m: State<K, V>, t: State<K, V>, n: nat, k: K)
    requires DroppedFirst(s, m, n) && Evicts(m, t, k) && k in s.nodes && m.nodes[k] == s.nodes[k]
    ensures DroppedFirst(s, t, n + 1)
  {
    hide Sift, Without, ValueIn;
    OneLess(m, t, k);
    NextOf(s.order, n, k, t.order);
    SiftConcat(s.nodes, s.order[..n], [k], true);
    SiftOne(s.nodes, k);
  }

  lemma NextOf<K>(order: seq<K>, n: nat, k: K, rest: seq<K>)
    requires n <= |order| && order[n..] == [k] + rest
    ensures n < |order| && order[..n + 1] == order[..n] + [k] && order[n + 1..] == rest
  {
    assert order[n] == order[n..][0] && order[n + 1..] == order[n..][1..];
  }

  lemma SiftOne<K, V>(nodes: map<K, Node<V>>, k: K)
    requires k in nodes
    ensures Sift(nodes, [k], true) == if nodes[k].needUpdate then [k] else []
  {
  }

  lemma OneLess<K, V>(s: State<K, V>, t: State<K, V>, k: K)
    requires Evicts(s, t, k)
    ensures t.nodes == s.nodes - {k} && |t.nodes| + 1 == |s.nodes|
  {
    assert s.nodes.Keys == t.nodes.Keys + {k};
  }

  lemma KeptMore<K, V>(s: State<K, V>, m: State<K, V>, t: State<K, V>, k: K)
    requires RestKept(s, m) && Evicts(m, t, k)
    requires NoRepeats(s.temporary) && NoRepeats(s.persistent) && NoRepeats(s.obsolete)
    ensures RestKept(s, t)
  {
    assert t.nodes.Keys == m.nodes.Keys - {k};
    AmongLess(s.temporary, m.nodes.Keys, k);
    AmongLess(s.persistent, m.nodes.Keys, k);
    AmongLess(s.obsolete, m.nodes.Keys, k);
  }

  lemma StoredMore<K(!new), V>(s: State<K, V>, m: State<K, V>, t: State<K, V>, k: K)
    requires StoreKept(s, m) && RestKept(s, m) && Evicts(m, t, k)
    ensures StoreKept(s, t)
  {
  }

  ghost predicate Repeatless<K, V>(s: State<K, V>) {
    NoRepeats(s.temporary) && NoRepeats(s.persistent) && NoRepeats(s.obsolete)
  }

  /** One more entry is dropped. */
  lemma ReservedMore<K(!new), V>(s: State<K, V>, m: State<K, V>, t: State<K, V>, n: nat, k: K)
    requires Reserved(s, m, n) && Evicts(m, t, k) && Repeatless(s)
    ensures Reserved(s, t, n + 1)
  {
    assert k in s.nodes && m.nodes[k] == s.nodes[k];
    DroppedMore(s, m, t, n, k);
    KeptMore(s, m, t, k);
    StoredMore(s, m, t, k);
  }

  /** Clients see no other value. */
  lemma ReservedSame<K(!new), V>(s: State<K, V>, t: State<K, V>, n: nat)
    requires Reserved(s, t, n)
    ensures forall k :: LogicalIn(t.nodes, t.store, t.blank, k) == LogicalIn(s.nodes, s.store, s.blank, k)
  {
  }

  /** What getting key does to the rest: the first n entries that may be dropped are, the dirty ones written back;
      pinned ones stay, all lists keep their other keys in order, and the store has the values of what was dropped. */
  ghost predicate RestAfterGet<K(!new), V>(s: State<K, V>, t: State<K, V>, key: K, n: nat) {
    && n <= |s.order| && t.released == s.released + s.order[..n]
    && t.written == s.written + Sift(s.nodes, s.order[..n], true)
    && (forall k :: k in t.nodes && k != key ==> k in s.nodes && t.nodes[k] == s.nodes[k])
    && (forall k :: k in s.nodes && k != key && s.nodes[k].pins > 0 ==> k in t.nodes)
    && t.temporary == Among(s.temporary, t.nodes.Keys - {key})
    && t.persistent == Among(s.persistent, t.nodes.Keys - {key})
    && t.obsolete == Among(s.obsolete, t.nodes.Keys - {key})
    && StoreKept(s, t)
  }

  lemma RestOfHit<K(!new), V>(s: State<K, V>, t: State<K, V>, key: K)
    requires key in s.nodes && key in t.nodes && t.nodes == s.nodes[key := t.nodes[key]]
    requires t.store == s.store && t.blank == s.blank && t.released == s.released && t.written == s.written
    requires t.temporary == Among(s.temporary, s.nodes.Keys - {key})
    requires t.persistent == Among(s.persistent, s.nodes.Keys - {key})
    requires t.obsolete == Among(s.obsolete, s.nodes.Keys - {key})
    ensures RestAfterGet(s, t, key, 0)
  {
    assert t.nodes.Keys == s.nodes.Keys;
    assert s.released + s.order[..0] == s.released && s.written + Sift(s.nodes, s.order[..0], true) == s.written;
  }

  lemma RestOfMiss<K(!new), V>(s: State<K, V>, t: State<K, V>, n: nat, key: K)
    requires Reserved(s, t, n) && key !in s.nodes
    ensures RestAfterGet(s, t, key, n) && |t.nodes| + n == |s.nodes| && key !in t.nodes
  {
    assert t.nodes.Keys - {key} == t.nodes.Keys;
  }

  lemma RestOfNew<K(!new), V>(s: State<K, V>, m: State<K, V>, t: State<K, V>, n: nat, key: K)
    requires RestAfterGet(s, m, key, n) && key !in m.nodes && key in t.nodes && t.nodes == m.nodes[key := t.nodes[key]]
    requires key !in s.nodes
    requires t.store == m.store && t.blank == m.blank && t.released == m.released && t.written == m.written
    requires t.temporary == m.temporary && t.persistent == m.persistent && t.obsolete == m.obsolete
    ensures RestAfterGet(s, t, key, n)
  {
    assert t.nodes.Keys - {key} == m.nodes.Keys - {key};
  }

  ghost function OrderOf<K, V>(nodes: map<K, Node<V>>, temporary: seq<K>, persistent: seq<K>): seq<K> {
    Sift(nodes, temporary, false) + Sift(nodes, temporary, true) + persistent
  }

  lemma OrderWhenDirty<K, V>(nodes: map<K, Node<V>>, temporary: seq<K>, persistent: seq<K>)
    requires forall k :: k in temporary ==> k in nodes && nodes[k].needUpdate
    ensures OrderOf(nodes, temporary, persistent) == temporary + persistent
  {
    SiftPure(nodes, temporary, true);
  }

  class LRUCache<K(==, !new), V> {
    // The helper: the store behind the cache, and how many entries fit.
    const capacity: nat
    const blank: V
    var store: map<K, V>
    /** The calls of release so far: the entries dropped, in order. */
    var released: seq<K>
    /** The calls of update so far: the entries written back, in order. */
    var written: seq<K>

    var nodes: map<K, Node<V>>
    var persistent: seq<K>
    var temporary: seq<K>
    var obsolete: seq<K>

    /** Pinned entries whose holder wrote to them and has not said so yet. */
    ghost var touched: set<K>

    function Stored(k: K): V
      reads this`store
    {
      ValueIn(store, blank, k)
    }

    /** The value a client sees for k. */
    function Logical(k: K): V
      reads this`store, this`nodes
    {
      LogicalIn(nodes, store, blank, k)
    }

    ghost predicate Valid()
      reads this
    {
      Sound(nodes, store, blank, temporary, persistent, obsolete, touched)
    }

    constructor (capacity: nat, store: map<K, V>, blank: V)
      ensures Valid() && nodes == map[] && this.store == store && this.capacity == capacity && this.blank == blank
      ensures temporary == persistent == obsolete == released == written == []
    {
      this.capacity, this.store, this.blank := capacity, store, blank;
      nodes, persistent, temporary, obsolete, released, written := map[], [], [], [], [], [];
      touched := {};
    }

    predicate CanCreate()
      reads this`nodes
    {
      |nodes| < capacity
    }

    /** Helper.update: write an entry back. */
    method Update(k: K)
      requires k in nodes
      modifies this`store, this`written
      ensures store == old(store)[k := nodes[k].value] && written == old(written) + [k]
    {
      store := store[k := nodes[k].value];
      written := written + [k];
    }

    /** The entries that may be dropped, in the order in which they are: clean temporary, dirty temporary,
        persistent. */
    ghost function Order(): seq<K>
      reads this`nodes, this`temporary, this`persistent
    {
      OrderOf(nodes, temporary, persistent)
    }

    lemma OrderIs()
      requires Valid()
      ensures forall k :: k in Order() <==> k in nodes && nodes[k].pins == 0
    {
      SiftIn(nodes, temporary, false);
      SiftIn(nodes, temporary, true);
      assert forall k :: k in temporary ==> k in nodes && (nodes[k].needUpdate == false || nodes[k].needUpdate == true);
    }

    /** Clean temporary entries go first, then dirty ones, then persistent ones. */
    static function Rank(n: Node<V>): nat {
      if n.isPersistent then 2 else if n.needUpdate then 1 else 0
    }

    lemma Placed(j: nat)
      requires Valid() && j < |Order()|
      ensures var k, c, d := Order()[j], |Sift(nodes, temporary, false)|, |Sift(nodes, temporary, true)|;
        k in nodes && Rank(nodes[k]) == if j < c then 0 else if j < c + d then 1 else 2
    {
      var c, d := Sift(nodes, temporary, false), Sift(nodes, temporary, true);
      Sifted(nodes, temporary, false);
      Sifted(nodes, temporary, true);
      hide Sift;
      var k := Order()[j];
      if j < |c| {
        assert k in c;
      } else if j < |c| + |d| {
        assert d[j - |c|] in d;
      } else {
        assert persistent[j - |c| - |d|] in persistent;
      }
    }

    /** Within the same rank entries go in the order of their list. */
    lemma OrderRanks(i: nat, j: nat)
      requires Valid() && i < j < |Order()|
      ensures Order()[i] in nodes && Order()[j] in nodes
      ensures var x, y := Order()[i], Order()[j];
        && Rank(nodes[x]) <= Rank(nodes[y])
        && (Rank(nodes[x]) == Rank(nodes[y]) ==> Precedes(if Rank(nodes[x]) == 2 then persistent else temporary, x, y))
    {
      hide Sound, Sift, Rank;
      Placed(i);
      Placed(j);
      SiftIsAmong(nodes, temporary, false);
      SiftIsAmong(nodes, temporary, true);
      var c, d := |Sift(nodes, temporary, false)|, |Sift(nodes, temporary, true)|;
      if j < c {
        AmongOrder(temporary, Having(nodes, false), i, j);
      } else if c <= i && j < c + d {
        AmongOrder(temporary, Having(nodes, true), i - c, j - c);
      } else if c + d <= i {
        assert Order()[i] == persistent[i - c - d] && Order()[j] == persistent[j - c - d];
      }
    }

    // ---- reserve_space ----

    ghost function Now(): State<K, V>
      reads this
    {
      State(nodes, store, blank, released, written, temporary, persistent, obsolete, Order())
    }

    method EvictClean(i: nat)
      requires Valid() && i < |temporary| && forall k :: k in temporary ==> k in nodes
      requires forall j :: 0 <= j < i ==> nodes[temporary[j]].needUpdate
      requires !nodes[temporary[i]].needUpdate
      modifies this`nodes, this`temporary, this`released
      ensures Valid() && temporary == old(temporary[..i] + temporary[i + 1..])
      ensures Evicts(old(Now()), Now(), old(temporary[i]))
    {
      hide Sound, Sift, NoRepeats, Without, LogicalIn, ValueIn;
      ghost var was := nodes;
      var k := temporary[i];
      OnTemporary(i);
      FirstClean(nodes, temporary, i);
      SoundDrop(nodes, store, blank, temporary, persistent, obsolete, touched, k);
      Unlist(temporary, i);
      temporary := temporary[..i] + temporary[i + 1..];
      released := released + [k];
      nodes := nodes - {k};
      SiftFrame(was, nodes, temporary, false);
      SiftFrame(was, nodes, temporary, true);
      Consed(k, Sift(nodes, temporary, false), Sift(nodes, temporary, true), persistent);
    }

    lemma OnTemporary(i: nat)
      requires Valid() && i < |temporary|
      ensures NoRepeats(temporary)
      ensures var k := temporary[i];
        k in nodes && nodes[k].pins == 0 && k !in persistent && (k !in obsolete <==> !nodes[k].needUpdate)
      ensures var k := temporary[i]; !nodes[k].needUpdate ==> nodes[k].value == ValueIn(store, blank, k)
      ensures forall x :: x in temporary ==> x in nodes
    {
    }

    lemma OnPersistent()
      requires Valid() && persistent != []
      ensures NoRepeats(persistent)
      ensures var k := persistent[0];
        k in nodes && nodes[k].pins == 0 && k !in temporary && (k !in obsolete <==> !nodes[k].needUpdate)
      ensures var k := persistent[0]; !nodes[k].needUpdate ==> nodes[k].value == ValueIn(store, blank, k)
    {
    }

    lemma Unlist(s: seq<K>, i: nat)
      requires i < |s| && NoRepeats(s)
      ensures s[..i] + s[i + 1..] == Without(s, s[i])
      ensures forall x :: x in s[..i] + s[i + 1..] <==> x in s && x != s[i]
    {
      hide Without, NoRepeats;
      Recut(s, i);
      WithoutAt(s[..i], s[i], s[i + 1..]);
      WithoutIs(s, s[i]);
    }

    lemma Recut(s: seq<K>, i: nat)
      requires i < |s|
      ensures s[..i] + [s[i]] + s[i + 1..] == s
    {
    }

    lemma First(s: seq<K>)
      requires s != []
      ensures s[1..] == Without(s, s[0])
    {
    }

    lemma DirtyFirst()
      requires Valid() && temporary != [] && forall k :: k in temporary ==> k in nodes && nodes[k].needUpdate
      ensures var k := temporary[0];
        && k in nodes && nodes[k].pins == 0 && temporary[1..] == Without(temporary, k)
        && persistent == Without(persistent, k)
        && Sound(nodes - {k}, store[k := nodes[k].value], blank, temporary[1..], persistent, Without(obsolete, k),
             touched)
        && OrderOf(nodes, temporary, persistent) == [k] + OrderOf(nodes - {k}, temporary[1..], persistent)
        && forall x :: x in temporary[1..] ==> x in nodes - {k} && nodes[x].needUpdate
    {
      OnTemporary(0);
      Ahead();
      HeadFirst(temporary, persistent);
      First(temporary);
      OrderWhenDirty(nodes, temporary, persistent);
      OrderWhenDirty(nodes - {temporary[0]}, temporary[1..], persistent);
      hide Sound, Sift, NoRepeats, Without, LogicalIn, ValueIn, OrderOf;
      SoundDrop(nodes, store, blank, temporary, persistent, obsolete, touched, temporary[0]);
    }

    method EvictDirty()
      requires Valid() && temporary != [] && forall k :: k in temporary ==> k in nodes && nodes[k].needUpdate
      modifies this`store, this`written, this`nodes, this`temporary, this`obsolete, this`released
      ensures Valid() && temporary == old(temporary[1..]) && obsolete == Without(old(obsolete), old(temporary[0]))
      ensures var k := old(temporary[0]);
        && k in old(nodes) && nodes == old(nodes) - {k} && store == old(store)[k := old(nodes)[k].value]
        && written == old(written) + [k] && released == old(released) + [k]
      ensures old(Order()) == [old(temporary[0])] + Order()
      ensures forall k :: k in temporary ==> k in nodes && nodes[k].needUpdate
    {
      var k := temporary[0];
      DirtyFirst();
      hide Sound, Without, LogicalIn, ValueIn, OrderOf;
      Update(k);
      released := released + [k];
      obsolete := Without(obsolete, k);
      temporary := temporary[1..];
      nodes := nodes - {k};
    }

    static lemma Gone(s: State<K, V>, t: State<K, V>, k: K)
      requires k in s.nodes && s.nodes[k].pins == 0 && t.nodes == s.nodes - {k} && t.released == s.released + [k]
      requires t.blank == s.blank && s.order == [k] + t.order
      requires t.store == if s.nodes[k].needUpdate then s.store[k := s.nodes[k].value] else s.store
      requires t.written == if s.nodes[k].needUpdate then s.written + [k] else s.written
      requires !s.nodes[k].needUpdate ==> s.nodes[k].value == ValueIn(s.store, s.blank, k)
      requires t.temporary == Without(s.temporary, k) && t.persistent == Without(s.persistent, k)
      requires t.obsolete == Without(s.obsolete, k)
      ensures Evicts(s, t, k)
    {
    }

    method EvictPersistent()
      requires Valid() && temporary == [] && persistent != []
      modifies this`store, this`written, this`nodes, this`persistent, this`obsolete, this`released
      ensures Valid() && persistent == old(persistent[1..])
      ensures Evicts(old(Now()), Now(), old(persistent[0]))
    {
      hide Sound, Sift, NoRepeats, Without, LogicalIn, ValueIn, Order, Evicts;
      ghost var was := Now();
      var k := persistent[0];
      OnPersistent();
      NoneLeft();
      SoundDrop(nodes, store, blank, temporary, persistent, obsolete, touched, k);
      assert persistent[1..] == Without(persistent, k) by { First(persistent); }
      if nodes[k].needUpdate {
        Update(k);
        obsolete := Without(obsolete, k);
      }
      released := released + [k];
      persistent := persistent[1..];
      nodes := nodes - {k};
      NoneLeft();
      Gone(was, Now(), k);
    }

    lemma NoneLeft()
      requires temporary == []
      ensures Order() == persistent
    {
    }

    /** Make room for one more entry, dropping no more than needed; false when every entry is pinned and there is
        still none. */
    method ReserveSpace(key: K) returns (ok: bool, ghost n: nat)
      requires Valid() && key !in nodes
      modifies this`store, this`written, this`nodes, this`temporary, this`persistent, this`obsolete, this`released
      ensures Valid() && (forall x :: Logical(x) == old(Logical(x)))
      ensures RestAfterGet(old(Now()), Now(), key, n) && key !in nodes && (n > 0 ==> |old(nodes)| + 1 >= capacity + n)
      ensures ok <==> |nodes| < capacity
      ensures ok <==> |Pinned(old(nodes))| < capacity
      ensures !ok ==> n == |old(Order())|
    {
      hide Sound, Reserved, Order, Pinned, RestAfterGet, LogicalIn, ValueIn;
      ghost var s := Now();
      n := 0;
      Unreserved();
      ok := CanCreate();
      if !ok {
        n := DropCleans(n, s);
        ok := CanCreate();
      }
      if !ok {
        n := DropDirties(n, s);
        ok := CanCreate();
      }
      if !ok {
        n := DropPersistents(n, s);
        ok := CanCreate();
      }
      FullOfPins(s, n, ok);
      ReservedSame(s, Now(), n);
      RestOfMiss(s, Now(), n, key);
    }

    lemma Unreserved()
      requires Valid()
      ensures Reserved(Now(), Now(), 0) && Repeatless(Now())
    {
      assert Order()[0..] == Order();
      assert released + Order()[..0] == released;
      AmongAll(temporary, nodes.Keys);
      AmongAll(persistent, nodes.Keys);
      AmongAll(obsolete, nodes.Keys);
    }

    method DropClean(i: nat, ghost n: nat, ghost s: State<K, V>)
      requires Valid() && Reserved(s, Now(), n) && Repeatless(s) && |nodes| >= capacity
      requires i < |temporary| && forall k :: k in temporary ==> k in nodes
      requires forall j :: 0 <= j < i ==> nodes[temporary[j]].needUpdate
      requires !nodes[temporary[i]].needUpdate
      modifies this`nodes, this`temporary, this`released
      ensures Valid() && Reserved(s, Now(), n + 1) && |nodes| + 1 >= capacity
      ensures i <= |temporary| < |old(temporary)|
      ensures forall j :: 0 <= j < i ==> temporary[j] in nodes && nodes[temporary[j]].needUpdate
    {
      hide Sound, Order, Sift, NoRepeats, Reserved, Evicts, Repeatless;
      ghost var before, k := Now(), temporary[i];
      EvictClean(i);
      ReservedMore(s, before, Now(), n, k);
      OneLess(before, Now(), k);
    }

    method DropCleans(ghost n0: nat, ghost s: State<K, V>) returns (ghost n: nat)
      requires Valid() && Reserved(s, Now(), n0) && Repeatless(s) && (n0 > 0 ==> |nodes| + 1 >= capacity)
      modifies this`nodes, this`temporary, this`released
      ensures Valid() && Reserved(s, Now(), n) && (n > 0 ==> |nodes| + 1 >= capacity)
      ensures CanCreate() || (forall k :: k in temporary ==> k in nodes && nodes[k].needUpdate)
    {
      hide Sound, Order, Sift, NoRepeats, Reserved, Evicts, Repeatless;
      n := n0;
      var i := 0;
      while i < |temporary| && !CanCreate()
        invariant Valid() && Reserved(s, Now(), n) && (n > 0 ==> |nodes| + 1 >= capacity)
        invariant i <= |temporary| && forall j :: 0 <= j < i ==> temporary[j] in nodes && nodes[temporary[j]].needUpdate
        decreases |temporary| - i
      {
        OnTemporary(i);
        if !nodes[temporary[i]].needUpdate {
          DropClean(i, n, s);
          n := n + 1;
        } else {
          i := i + 1;
        }
      }
    }

    method DropDirty(ghost n: nat, ghost s: State<K, V>)
      requires Valid() && Reserved(s, Now(), n) && Repeatless(s) && |nodes| >= capacity
      requires temporary != [] && forall k :: k in temporary ==> k in nodes && nodes[k].needUpdate
      modifies this`store, this`written, this`nodes, this`temporary, this`obsolete, this`released
      ensures Valid() && Reserved(s, Now(), n + 1) && |nodes| + 1 >= capacity && |temporary| < |old(temporary)|
      ensures forall k :: k in temporary ==> k in nodes && nodes[k].needUpdate
    {
      hide Sound, Order, Sift, NoRepeats, Reserved, Evicts, Repeatless;
      ghost var before, k := Now(), temporary[0];
      DirtyFirst();
      EvictDirty();
      Gone(before, Now(), k);
      ReservedMore(s, before, Now(), n, k);
      OneLess(before, Now(), k);
    }

    method DropDirties(ghost n0: nat, ghost s: State<K, V>) returns (ghost n: nat)
      requires Valid() && Reserved(s, Now(), n0) && Repeatless(s) && (n0 > 0 ==> |nodes| + 1 >= capacity)
      requires forall k :: k in temporary ==> k in nodes && nodes[k].needUpdate
      modifies this`store, this`written, this`nodes, this`temporary, this`obsolete, this`released
      ensures Valid() && Reserved(s, Now(), n) && (n > 0 ==> |nodes| + 1 >= capacity)
      ensures CanCreate() || temporary == []
    {
      hide Sound, Order, Sift, NoRepeats, Reserved, Evicts, Repeatless;
      n := n0;
      while temporary != [] && !CanCreate()
        invariant Valid() && Reserved(s, Now(), n) && (n > 0 ==> |nodes| + 1 >= capacity)
        invariant forall k :: k in temporary ==> k in nodes && nodes[k].needUpdate
        decreases |temporary|
      {
        DropDirty(n, s);
        n := n + 1;
      }
    }

    /** The entries behind the first temporary one are others. */
    lemma Ahead()
      requires Valid() && temporary != []
      ensures forall x :: x in temporary[1..] ==> x in temporary && x != temporary[0]
    {
    }

    method DropPersistent(ghost n: nat, ghost s: State<K, V>)
      requires Valid() && Reserved(s, Now(), n) && Repeatless(s) && |nodes| >= capacity
      requires temporary == [] && persistent != []
      modifies this`store, this`written, this`nodes, this`persistent, this`obsolete, this`released
      ensures Valid() && Reserved(s, Now(), n + 1) && |nodes| + 1 >= capacity && |persistent| < |old(persistent)|
    {
      hide Sound, Order, Sift, NoRepeats, Reserved, Evicts, Repeatless;
      ghost var before, k := Now(), persistent[0];
      EvictPersistent();
      ReservedMore(s, before, Now(), n, k);
      OneLess(before, Now(), k);
    }

    method DropPersistents(ghost n0: nat, ghost s: State<K, V>) returns (ghost n: nat)
      requires Valid() && Reserved(s, Now(), n0) && Repeatless(s) && (n0 > 0 ==> |nodes| + 1 >= capacity)
      requires temporary == []
      modifies this`store, this`written, this`nodes, this`persistent, this`obsolete, this`released
      ensures Valid() && Reserved(s, Now(), n) && (n > 0 ==> |nodes| + 1 >= capacity)
      ensures CanCreate() || n == |s.order|
    {
      hide Sound, Sift, NoRepeats, Reserved, Order, Evicts, Repeatless;
      n := n0;
      while persistent != [] && !CanCreate()
        invariant Valid() && Reserved(s, Now(), n) && (n > 0 ==> |nodes| + 1 >= capacity)
        decreases |persistent|
      {
        DropPersistent(n, s);
        n := n + 1;
      }
      if !CanCreate() {
        NoneLeft();
        NoMore(s, Now(), n);
      }
    }

    static lemma NoMore(s: State<K, V>, t: State<K, V>, n: nat)
      requires Reserved(s, t, n) && t.order == []
      ensures n == |s.order|
    {
    }

    // ---- the public operations ----

    /** get: pin an entry, bringing it in if necessary. It fails exactly when it is not there and
        the pinned entries alone fill the cache. */
    method Get(key: K) returns (ok: bool, ghost n: nat)
      requires Valid()
      modifies this
      ensures Valid() && (forall x :: Logical(x) == old(Logical(x)))
      ensures ok <==> key in old(nodes) || |Pinned(old(nodes))| < capacity
      ensures (ok <==> key in nodes) && (ok ==> nodes[key].value == Logical(key))
      ensures ok && key in old(nodes) ==> nodes[key] == old(nodes)[key].(pins := old(nodes)[key].pins + 1)
      ensures ok && key !in old(nodes) ==> nodes[key] == Node(Stored(key), false, false, 1)
      ensures RestAfterGet(old(Now()), Now(), key, n)
      ensures (key in old(nodes) ==> n == 0) && (n > 0 ==> |old(nodes)| + 1 >= capacity + n)
      ensures !ok ==> n == |old(Order())|
      ensures touched == old(touched)
    {
      hide Sound, Order, LogicalIn, ValueIn, Without, RestAfterGet, Pinned;
      n := 0;
      ghost var s := Now();
      if key in nodes {
        Unchanged(key);
        GetChange(key);
        LogicalAt(key);
        RestOfHit(s, Now(), key);
        return true, n;
      }
      ok, n := Fetch(key);
    }

    /** get of a key that is not there. */
    method Fetch(key: K) returns (ok: bool, ghost n: nat)
      requires Valid() && key !in nodes
      modifies this
      ensures Valid() && (forall x :: Logical(x) == old(Logical(x)))
      ensures (ok <==> |Pinned(old(nodes))| < capacity) && (ok <==> key in nodes)
      ensures ok ==> nodes[key] == Node(Stored(key), false, false, 1) && nodes[key].value == Logical(key)
      ensures RestAfterGet(old(Now()), Now(), key, n)
      ensures (n > 0 ==> |old(nodes)| + 1 >= capacity + n) && (!ok ==> n == |old(Order())|)
      ensures touched == old(touched)
    {
      hide Sound, Order, LogicalIn, ValueIn, RestAfterGet, Pinned;
      ghost var s := Now();
      ok, n := ReserveSpace(key);
      if !ok {
        return;
      }
      ghost var m := Now();
      Created(key);
      nodes := nodes[key := Node(Stored(key), false, false, 1)];
      LogicalAt(key);
      RestOfNew(s, m, Now(), n, key);
    }

    lemma Unchanged(key: K)
      requires Valid() && key in nodes
      ensures Without(temporary, key) == Among(temporary, nodes.Keys - {key})
      ensures Without(persistent, key) == Among(persistent, nodes.Keys - {key})
      ensures Without(obsolete, key) == Among(obsolete, nodes.Keys - {key})
    {
      AmongAll(temporary, nodes.Keys);
      AmongAll(persistent, nodes.Keys);
      AmongAll(obsolete, nodes.Keys);
      AmongLess(temporary, nodes.Keys, key);
      AmongLess(persistent, nodes.Keys, key);
      AmongLess(obsolete, nodes.Keys, key);
    }

    lemma LogicalAt(key: K)
      requires key in nodes
      ensures Logical(key) == nodes[key].value
    {
    }

    lemma FullOfPins(s: State<K, V>, n: nat, ok: bool)
      requires Valid() && Reserved(s, Now(), n)
      requires ok <==> |nodes| < capacity
      requires !ok ==> n == |s.order|
      ensures ok <==> |Pinned(s.nodes)| < capacity
    {
      assert Pinned(s.nodes) <= nodes.Keys;
      Fewer(Pinned(s.nodes), nodes.Keys);
      if !ok {
        OrderIs();
        assert Order() == [];
        forall k | k in nodes
          ensures k in Pinned(s.nodes)
        {
          assert k !in Order();
        }
        Fewer(nodes.Keys, Pinned(s.nodes));
      }
    }

    lemma Created(key: K)
      requires Valid() && key !in nodes
      ensures var more := nodes[key := Node(Stored(key), false, false, 1)];
        && Sound(more, store, blank, temporary, persistent, obsolete, touched)
        && forall x :: LogicalIn(more, store, blank, x) == Logical(x)
    {
    }

    method GetChange(key: K)
      requires Valid() && key in nodes
      modifies this`nodes, this`temporary, this`persistent, this`obsolete
      ensures Valid() && nodes == old(nodes)[key := old(nodes)[key].(pins := old(nodes)[key].pins + 1)]
      ensures forall x :: Logical(x) == old(Logical(x))
      ensures temporary == Without(old(temporary), key) && persistent == Without(old(persistent), key)
      ensures obsolete == Without(old(obsolete), key)
    {
      hide Sound, Without, ValueIn;
      var node := nodes[key].(pins := nodes[key].pins + 1);
      if node.pins > 1 {
        OnNone(key);
        SoundPinned(nodes, store, blank, temporary, persistent, obsolete, touched, key, node);
        nodes := nodes[key := node];
        return;
      }
      SoundPin(nodes, store, blank, temporary, persistent, obsolete, touched, key);
      nodes := nodes[key := node];
      if node.isPersistent {
        persistent := Without(persistent, key);
      } else {
        temporary := Without(temporary, key);
      }
      if key in obsolete {
        obsolete := Without(obsolete, key);
      }
    }

    lemma OnNone(key: K)
      requires Valid() && key in nodes && nodes[key].pins > 0
      ensures key !in temporary && key !in persistent && key !in obsolete
    {
    }

    /** A client writes through the pointer it got. */
    method Write(key: K, value: V)
      requires Valid() && key in nodes && nodes[key].pins > 0
      modifies this`nodes, this`touched
      ensures Valid() && nodes == old(nodes)[key := old(nodes)[key].(value := value)] && touched == old(touched) + {key}
      ensures Logical(key) == value && forall x :: x != key ==> Logical(x) == old(Logical(x))
    {
      touched := touched + {key};
      nodes := nodes[key := nodes[key].(value := value)];
    }

    /** put: give a pin back. Whoever wrote to the entry must have said so by the time the last pin goes;
        aged says that the entry came in at least a second ago. */
    method Put(key: K, needUpdate: bool, aged: bool)
      requires Valid() && key in nodes && nodes[key].pins > 0
      requires nodes[key].pins == 1 && key in touched ==> needUpdate || nodes[key].needUpdate
      modifies this`nodes, this`temporary, this`persistent, this`obsolete, this`touched
      ensures Valid() && (forall x :: Logical(x) == old(Logical(x)))
      ensures var o := old(nodes)[key]; var lasting := o.isPersistent || (o.pins == 1 && aged);
        nodes == old(nodes)[key := Node(o.value, o.needUpdate || needUpdate, lasting, o.pins - 1)]
      ensures touched == if needUpdate || old(nodes)[key].pins == 1 then old(touched) - {key} else old(touched)
      ensures Appended(old(temporary), old(persistent), old(obsolete), nodes[key], key)
    {
      if needUpdate {
        nodes := nodes[key := nodes[key].(needUpdate := true)];
        touched := touched - {key};
      }
      PutChange(key, aged);
    }

    /** Entry n of key, with no pin left, is last on the lists where it belongs; nothing else has moved. */
    ghost predicate Appended(temporary0: seq<K>, persistent0: seq<K>, obsolete0: seq<K>, n: Node<V>, key: K)
      reads this`temporary, this`persistent, this`obsolete
    {
      && temporary == (if n.pins == 0 && !n.isPersistent then temporary0 + [key] else temporary0)
      && persistent == (if n.pins == 0 && n.isPersistent then persistent0 + [key] else persistent0)
      && obsolete == (if n.pins == 0 && n.needUpdate then obsolete0 + [key] else obsolete0)
    }

    method PutChange(key: K, aged: bool)
      requires Valid() && key in nodes && nodes[key].pins > 0
      requires nodes[key].pins == 1 && key in touched ==> nodes[key].needUpdate
      modifies this`nodes, this`temporary, this`persistent, this`obsolete, this`touched
      ensures Valid()
      ensures var o := old(nodes)[key];
        nodes == old(nodes)[key := o.(isPersistent := o.isPersistent || (o.pins == 1 && aged), pins := o.pins - 1)]
      ensures touched == if old(nodes)[key].pins == 1 then old(touched) - {key} else old(touched)
      ensures Appended(old(temporary), old(persistent), old(obsolete), nodes[key], key)
    {
      hide Sound;
      var node := nodes[key].(pins := nodes[key].pins - 1);
      if node.pins > 0 {
        SoundPinned(nodes, store, blank, temporary, persistent, obsolete, touched, key, node);
        nodes := nodes[key := node];
        return;
      }
      SoundUnpin(nodes, store, blank, temporary, persistent, obsolete, touched, key, node.isPersistent || aged);
      touched := touched - {key};
      if node.isPersistent || aged {
        node := node.(isPersistent := true);
        persistent := persistent + [key];
      } else {
        temporary := temporary + [key];
      }
      nodes := nodes[key := node];
      if node.needUpdate {
        obsolete := obsolete + [key];
      }
    }

    /** Write back the entry that has been obsolete longest. */
    method UpdateOne()
      requires Valid()
      modifies this`store, this`written, this`nodes, this`obsolete
      ensures Valid() && (forall x :: Logical(x) == old(Logical(x)))
      ensures old(obsolete) != [] ==> var k := old(obsolete[0]);
        && obsolete == old(obsolete[1..]) && k in old(nodes) && written == old(written) + [k]
        && store == old(store)[k := old(nodes)[k].value]
        && nodes == old(nodes)[k := old(nodes)[k].(needUpdate := false)]
      ensures old(obsolete) == [] ==>
        store == old(store) && nodes == old(nodes) && obsolete == [] && written == old(written)
    {
      if |obsolete| > 0 {
        var k := obsolete[0];
        SoundFlush(nodes, store, blank, temporary, persistent, obsolete, touched);
        Update(k);
        nodes := nodes[k := nodes[k].(needUpdate := false)];
        obsolete := obsolete[1..];
      }
    }

    method UpdateAll()
      requires Valid()
      modifies this`store, this`written, this`nodes, this`obsolete
      ensures Valid() && (forall x :: Logical(x) == old(Logical(x)))
      ensures obsolete == [] && written == old(written) + old(obsolete)
      ensures Clean(old(nodes), old(store))
    {
      Flush(obsolete);
    }

    /** The same in the order a sort of the list gives. */
    method UpdateAllWithOrder(order: seq<K>)
      requires Valid() && multiset(order) == multiset(obsolete)
      modifies this`store, this`written, this`nodes, this`obsolete
      ensures Valid() && (forall x :: Logical(x) == old(Logical(x)))
      ensures obsolete == [] && written == old(written) + order
      ensures Clean(old(nodes), old(store))
    {
      Flush(order);
    }

    /** Every unpinned entry is clean and agrees with the store; nothing else has changed. */
    ghost predicate Clean(was: map<K, Node<V>>, stored: map<K, V>)
      reads this`nodes, this`store
    {
      && nodes.Keys == was.Keys
      && (forall k :: k in nodes ==> nodes[k] == if was[k].pins == 0 then was[k].(needUpdate := false) else was[k])
      && (forall k :: k in nodes && nodes[k].pins == 0 ==> Stored(k) == nodes[k].value)
      && (forall k :: !(k in was && was[k].pins == 0 && was[k].needUpdate) ==> Stored(k) == ValueIn(stored, blank, k))
    }

    method Flush(list: seq<K>)
      requires Valid() && multiset(list) == multiset(obsolete)
      modifies this`store, this`written, this`nodes, this`obsolete
      ensures Valid() && (forall x :: Logical(x) == old(Logical(x)))
      ensures obsolete == [] && written == old(written) + list
      ensures Clean(old(nodes), old(store))
    {
      hide Sound, Flushing, LogicalIn;
      SoundOrder(nodes, store, blank, temporary, persistent, obsolete, touched, list);
      ghost var was, stored := nodes, store;
      NoneFlushed();
      var i := 0;
      assert list[0..] == list;
      while i < |list|
        invariant i <= |list| && Sound(nodes, store, blank, temporary, persistent, list[i..], touched)
        invariant forall x :: Logical(x) == old(Logical(x))
        invariant written == old(written) + list[..i] && Flushing(was, stored)
      {
        SoundFlush(nodes, store, blank, temporary, persistent, list[i..], touched);
        var k := list[i];
        assert list[i..][0] == k && list[i..][1..] == list[i + 1..];
        WriteBack(k, was, stored);
        i := i + 1;
      }
      assert list[..i] == list && list[i..] == [];
      obsolete := [];
      Flushed(was, stored);
    }

    /** Write back an unpinned dirty entry, one of those of a flush that began at was and stored. */
    method WriteBack(k: K, ghost was: map<K, Node<V>>, ghost stored: map<K, V>)
      requires k in nodes && nodes[k].pins == 0 && nodes[k].needUpdate && Flushing(was, stored)
      modifies this`store, this`written, this`nodes
      ensures store == old(store)[k := old(nodes)[k].value] && written == old(written) + [k]
      ensures nodes == old(nodes)[k := old(nodes)[k].(needUpdate := false)]
      ensures Flushing(was, stored) && forall x :: Logical(x) == old(Logical(x))
    {
      Update(k);
      nodes := nodes[k := nodes[k].(needUpdate := false)];
    }

    /** Some unpinned entries were written back. */
    ghost predicate Flushing(was: map<K, Node<V>>, stored: map<K, V>)
      reads this`nodes, this`store
    {
      && nodes.Keys == was.Keys
      && (forall k :: k in nodes ==>
           nodes[k] == was[k] || (was[k].pins == 0 && nodes[k] == was[k].(needUpdate := false)))
      && (forall k :: !(k in was && was[k].pins == 0 && was[k].needUpdate) ==> Stored(k) == ValueIn(stored, blank, k))
    }

    lemma NoneFlushed()
      ensures Flushing(nodes, store)
    {
    }

    lemma Flushed(was: map<K, Node<V>>, stored: map<K, V>)
      requires Valid() && obsolete == [] && Flushing(was, stored)
      ensures Clean(was, stored)
    {
    }

    /** Drop an entry that is not in use; false when there is none (the source throws). */
    method Remove(key: K) returns (found: bool)
      requires Valid() && (key in nodes ==> nodes[key].pins == 0)
      modifies this
      ensures Valid() && (forall x :: Logical(x) == old(Logical(x)))
      ensures found <==> key in old(nodes)
      ensures nodes == old(nodes) - {key} && touched == old(touched)
      ensures released == if found then old(released) + [key] else old(released)
      ensures temporary == Without(old(temporary), key) && persistent == Without(old(persistent), key)
      ensures obsolete == Without(old(obsolete), key)
      ensures var writes := found && old(nodes)[key].needUpdate;
        && written == (if writes then old(written) + [key] else old(written))
        && store == (if writes then old(store)[key := old(nodes)[key].value] else old(store))
    {
      if key !in nodes {
        NotListed(key);
        return false;
      }
      ghost var was, stored := nodes, store;
      SoundDrop(nodes, store, blank, temporary, persistent, obsolete, touched, key);
      OnList(key);
      hide Sound, Without, LogicalIn, ValueIn;
      if nodes[key].needUpdate {
        Update(key);
        obsolete := Without(obsolete, key);
      }
      released := released + [key];
      if nodes[key].isPersistent {
        persistent := Without(persistent, key);
      } else {
        temporary := Without(temporary, key);
      }
      nodes := nodes - {key};
      SameToClients(was, stored, key);
      found := true;
    }

    lemma SameToClients(was: map<K, Node<V>>, stored: map<K, V>, k: K)
      requires k in was && nodes == was - {k}
      requires store == if was[k].needUpdate then stored[k := was[k].value] else stored
      requires !was[k].needUpdate ==> was[k].value == ValueIn(stored, blank, k)
      ensures forall x :: Logical(x) == LogicalIn(was, stored, blank, x)
    {
    }

    lemma NotListed(key: K)
      requires Valid() && key !in nodes
      ensures key !in temporary && key !in persistent && key !in obsolete && nodes == nodes - {key}
    {
    }

    lemma OnList(key: K)
      requires Valid() && key in nodes && nodes[key].pins == 0
      ensures !nodes[key].needUpdate ==> nodes[key].value == Stored(key)
      ensures if nodes[key].isPersistent then key !in temporary else key !in persistent
      ensures !nodes[key].needUpdate ==> key !in obsolete
    {
    }

    /** The destructor at one entry. */
    method WriteOut(key: K)
      requires key in nodes
      modifies this`store, this`written, this`released
      ensures released == old(released) + [key]
      ensures written == if nodes[key].needUpdate then old(written) + [key] else old(written)
      ensures store == if nodes[key].needUpdate then old(store)[key := nodes[key].value] else old(store)
    {
      if nodes[key].needUpdate {
        Update(key);
      }
      released := released + [key];
    }

    /** The destructor: false when an entry is still pinned (the process terminates); otherwise the store
        ends up holding, for every key, the value a client saw last. */
    method Close() returns (ok: bool)
      requires Valid()
      modifies this`store, this`written, this`released
      ensures ok <==> Pinned(nodes) == {}
      ensures ok ==> forall x :: Stored(x) == old(Logical(x))
      ensures ok ==> multiset(released) == multiset(old(released)) + multiset(nodes.Keys)
      ensures ok ==> multiset(written) == multiset(old(written)) + multiset(Having(nodes, true))
    {
      hide Told, Having;
      var rest := nodes.Keys;
      NoneTold(nodes, released, written);
      while rest != {}
        invariant rest <= nodes.Keys
        invariant Told(nodes.Keys, rest, old(released), released)
        invariant Told(Having(nodes, true), rest, old(written), written)
        invariant forall k :: k in nodes && k !in rest ==> nodes[k].pins == 0 && Stored(k) == nodes[k].value
        invariant forall k :: k in rest || k !in nodes ==> Stored(k) == old(Stored(k))
        decreases rest
      {
        var key :| key in rest;
        if nodes[key].pins != 0 {
          assert key in Pinned(nodes);
          return false;
        }
        ToldMore(nodes, rest, key, old(released), released, old(written), written);
        WriteOut(key);
        rest := rest - {key};
      }
      AllTold(nodes.Keys, old(released), released);
      AllTold(Having(nodes, true), old(written), written);
      ok := true;
    }
  }
}
