/** What insert and erase do to a tree, as equations between forests: the pairs, the separators
    and the shape of the result. */
module TreeEdits {
  import opened Options
  import opened SortedEntries
  import opened Trees
  import opened BlockStore

  lemma OpenIds(k: multiset<nat>, others: multiset<nat>, bk: multiset<nat>, before: nat, id: nat)
    ensures k + ((others + (multiset{before} + bk)) + multiset{id}) == k + ((others + multiset{before, id}) + bk)
    ensures k + ((others + (multiset{before} + bk)) + multiset{id}) == (k + others + bk) + multiset{before, id}
  {
  }

  lemma SepPlace(seps: seq<Sep>, i: nat, sep: Sep)
    requires i <= |seps| && SepSorted(InsertAt(seps, i, sep))
    ensures SepSorted(seps) && forall p :: IsSepRank(seps, sep.key, p) ==> p == i
  {
    var all := InsertAt(seps, i, sep);
    assert all[i] == sep;
    assert forall j :: 0 <= j < i ==> all[j] == seps[j];
    assert forall j :: i <= j < |seps| ==> all[j + 1] == seps[j];
    assert forall j :: 0 <= j < i ==> seps[j].key < sep.key;
    assert i < |seps| ==> seps[i].key > sep.key;
  }

  /** Child i is where key is, if it is anywhere. */
  ghost predicate Belongs<V>(ks: seq<Tree<V>>, i: nat, key: int) {
    && i < |ks|
    && Below(FlatF(ks[..i]), key) && Above(FlatF(ks[i + 1..]), key) && Sorted(Flat(ks[i]))
    && (HasKey(FlatF(ks), key) <==> HasKey(Flat(ks[i]), key))
  }

  /** The child where key is or goes: the last whose least key is not above it, or else the first. */
  ghost function Home<V>(ks: seq<Tree<V>>, key: int): (i: nat)
    requires ks != []
    ensures i < |ks| && (i > 0 ==> MinKey(ks[i]) <= key) && forall j :: i < j < |ks| ==> key < MinKey(ks[j])
  {
    var n := |ks| - 1;
    if n > 0 && key < MinKey(ks[n]) then Home(ks[..n], key) else n
  }

  lemma HomeIs<V>(ks: seq<Tree<V>>, i: nat, key: int)
    requires i < |ks| && forall j, k :: 0 <= j < k < |ks| ==> Seps(ks)[j].key < Seps(ks)[k].key
    requires (i > 0 ==> MinKey(ks[i]) <= key) && (i + 1 < |ks| ==> key < MinKey(ks[i + 1]))
    ensures Home(ks, key) == i
  {
    hide MinKey;
    forall j | i < j < |ks|
      ensures key < MinKey(ks[j])
    {
      assert Seps(ks)[i + 1].key <= Seps(ks)[j].key;
      assert Seps(ks)[j] == SepOf(ks[j]) && Seps(ks)[i + 1] == SepOf(ks[i + 1]);
    }
  }

  /** Where the binary search over the separators sends a key that is not one of them. */
  lemma ChooseChild<V>(ks: seq<Tree<V>>, p: nat, key: int, h: nat, c: Caps)
    requires ks != [] && ShapeF(ks, h, c) && Sorted(FlatF(ks)) && IsSepRank(Seps(ks), key, p)
    requires p < |ks| ==> MinKey(ks[p]) != key
    ensures var i := if p == 0 then 0 else p - 1;
      && Belongs(ks, i, key)
      && i == Home(ks, key) && (key < MinKey(ks[0]) ==> i == 0) && (i > 0 ==> MinKey(ks[i]) < key)
  {
    hide FlatF, HasKey, Below, Above;
    var i := if p == 0 then 0 else p - 1;
    var seps := Seps(ks);
    SepsSorted(ks, h, c);
    assert seps[i].key == MinKey(ks[i]) && seps[0].key == MinKey(ks[0]);
    assert i + 1 < |ks| ==> seps[i + 1].key == MinKey(ks[i + 1]);
    KeyContext(ks, i, h, c, key);
    ChildHasKey(ks, i, key);
    HomeIs(ks, i, key);
  }

  lemma ChildReplaced<V>(ks: seq<Tree<V>>, i: nat, kid: seq<Tree<V>>, e: Entry<V>, h: nat, c: Caps)
    requires i < |ks| && ShapeF(ks, h, c) && ShapeF(kid, h, c) && 1 <= |kid| <= 2 && kid[0].id == ks[i].id
    requires Sorted(FlatF(ks)) && !HasKey(FlatF(ks), e.key) && FlatF(kid) == Put(Flat(ks[i]), e)
    requires Below(FlatF(ks[..i]), e.key) && Above(FlatF(ks[i + 1..]), e.key)
    ensures FlatF(Replace(ks, i, i + 1, kid)) == Put(FlatF(ks), e) && Sorted(FlatF(Replace(ks, i, i + 1, kid)))
    ensures SepOf(kid[0]) == Sep(if e.key < MinKey(ks[i]) then e.key else MinKey(ks[i]), ks[i].id)
    ensures var fixed := Seps(ks)[i := SepOf(kid[0])];
      Seps(Replace(ks, i, i + 1, kid)) == if |kid| == 1 then fixed else InsertAt(fixed, i + 1, SepOf(kid[1]))
  {
    hide FlatF, Flat, Put, Below, Above, HasKey, Sorted, Seps, Replace, MinKey;
    PutReplace(ks, i, kid, e);
    PutSorted(FlatF(ks), e);
    NonEmpty(ks[i], h, c);
    MinAfterPut(ks[i], kid, e, h, c);
    ChildSeps(ks, i, kid);
  }

  lemma ChildHasKey<V>(ks: seq<Tree<V>>, i: nat, key: int)
    requires i < |ks| && Below(FlatF(ks[..i]), key) && Above(FlatF(ks[i + 1..]), key)
    ensures HasKey(FlatF(ks), key) <==> HasKey(Flat(ks[i]), key)
  {
    Around(ks, i);
    RankInside(FlatF(ks[..i]), Flat(ks[i]), FlatF(ks[i + 1..]), key);
  }

  /** The separators after a child became one or two trees. */
  lemma ChildSeps<V>(ks: seq<Tree<V>>, i: nat, kid: seq<Tree<V>>)
    requires i < |ks| && 1 <= |kid| <= 2
    ensures var fixed := Seps(ks)[i := SepOf(kid[0])];
      Seps(Replace(ks, i, i + 1, kid)) == if |kid| == 1 then fixed else InsertAt(fixed, i + 1, SepOf(kid[1]))
  {
    hide Seps, Replace, SepOf;
    SepsReplace(ks, i, i + 1, kid);
    if |kid| == 1 {
      assert kid == [kid[0]];
      Single(kid[0]);
      UpdateIsCut(Seps(ks), i, SepOf(kid[0]));
    } else {
      assert kid == [kid[0], kid[1]];
      Pair(kid[0], kid[1]);
      InsertIsCut(Seps(ks), i, SepOf(kid[0]), SepOf(kid[1]));
    }
  }

  lemma UpdateIsCut<T>(s: seq<T>, i: nat, x: T)
    requires i < |s|
    ensures s[..i] + [x] + s[i + 1..] == s[i := x]
  {
  }

  lemma InsertIsCut<T>(s: seq<T>, i: nat, x: T, y: T)
    requires i < |s|
    ensures s[..i] + [x, y] + s[i + 1..] == InsertAt(s[i := x], i + 1, y)
  {
  }

  lemma SameKeeps<V>(b: Store<V>, b': Store<V>, ids: multiset<nat>)
    requires forall x :: x in ids ==> x in b && x in b' && b'[x] == b[x]
    ensures Keeps(b, b', ids)
  {
  }

  lemma KeepsTrans<V>(a: Store<V>, b: Store<V>, c: Store<V>, ids: multiset<nat>)
    requires Keeps(a, b, ids) && Keeps(b, c, ids)
    ensures Keeps(a, c, ids)
  {
    assert forall x :: x in ids ==> SameContent(a, b, x) && SameContent(b, c, x);
  }

  lemma FoundInSeps<V>(ks: seq<Tree<V>>, i: nat, h: nat, c: Caps, key: int)
    requires i < |ks| && ShapeF(ks, h, c) && Sorted(FlatF(ks)) && MinKey(ks[i]) == key
    ensures HasKey(FlatF(ks), key)
  {
    Around(ks, i);
    NonEmpty(ks[i], h, c);
    var pre := FlatF(ks[..i]);
    RankOf(FlatF(ks), |pre|);
  }

  lemma SplitLeaf<V>(t: Tree<V>, e: Entry<V>, newId: nat, c: Caps) returns (rs: seq<Tree<V>>)
    requires t.Leaf? && Shape(t, 0, c) && |t.entries| == c.data
    ensures var all, cut := Put(t.entries, e), (|t.entries| + 1) / 2;
      rs == [Leaf(t.id, all[..cut]), Leaf(newId, all[cut..])] && 0 < cut < |all|
    ensures Inserted(t, e, Some(Sep(rs[1].entries[0].key, newId)), rs) && ShapeF(rs, 0, c)
    ensures IdsF(rs) == multiset{t.id, newId} && Leaves(rs[0]) + Leaves(rs[1]) == [t.id, newId]
  {
    var all, cut := Put(t.entries, e), (|t.entries| + 1) / 2;
    rs := [Leaf(t.id, all[..cut]), Leaf(newId, all[cut..])];
    Pair(rs[0], rs[1]);
    assert all[..cut] + all[cut..] == all;
  }

  /** The result of inserting e: one or two trees in place of t, the second reported to the parent. */
  ghost predicate Inserted<V>(t: Tree<V>, e: Entry<V>, link: Option<Sep>, rs: seq<Tree<V>>) {
    && FlatF(rs) == Put(Flat(t), e)
    && 1 <= |rs| <= 2 && rs[0].id == t.id
    && link == (if |rs| == 2 then Some(SepOf(rs[1])) else None)
  }

  /** The result of erasing key from t, behind the sibling bs (if any): both keep their place,
      pairs may have moved between them, and t may be gone. */
  ghost predicate Erased<V>(bs: seq<Tree<V>>, t: Tree<V>, key: int, res: Option<Sep>, bs': seq<Tree<V>>,
                            ts': seq<Tree<V>>) {
    && HasKey(Flat(t), key)
    && FlatF(bs') + FlatF(ts') == FlatF(bs) + Del(Flat(t), key)
    && Seps(bs') == Seps(bs) && |ts'| <= 1
    && (ts' != [] ==> ts'[0].id == t.id)
    && res == (if ts' == [] then None else Some(SepOf(ts'[0])))
  }

  /** Only the pairs of the data blocks in m may differ. */
  ghost predicate SameLinks<V>(b: Store<V>, b': Store<V>, m: multiset<nat>) {
    && b'.Keys == b.Keys
    && forall x :: x in b ==>
         || b'[x] == b[x]
         || (x in m && b[x].Data? && b'[x].Data? && b'[x].prev == b[x].prev && b'[x].next == b[x].next)
  }

  lemma LeafErased<V>(bs: seq<Tree<V>>, t: Tree<V>, key: int, res: Option<Sep>, ts: seq<Tree<V>>)
    requires t.Leaf? && HasKey(t.entries, key)
    requires var es := Del(t.entries, key);
      if es == [] then res == None && ts == [] else res == Some(Sep(es[0].key, t.id)) && ts == [Leaf(t.id, es)]
    ensures Erased(bs, t, key, res, bs, ts)
  {
    hide Del;
    if ts != [] {
      Single(ts[0]);
    }
  }

  lemma LeafRebalanced<V>(bs: seq<Tree<V>>, t: Tree<V>, key: int, left: seq<Entry<V>>, right: seq<Entry<V>>)
    requires t.Leaf? && HasKey(t.entries, key) && |bs| == 1 && bs[0].Leaf? && bs[0].entries != []
    requires left + right == bs[0].entries + Del(t.entries, key) && left != []
    ensures var bs', ts' := [Leaf(bs[0].id, left)], if right == [] then [] else [Leaf(t.id, right)];
      && Erased(bs, t, key, if right == [] then None else Some(Sep(right[0].key, t.id)), bs', ts')
      && IdsF(bs') == IdsF(bs) && LeavesF(bs') == LeavesF(bs)
  {
    hide Del;
    var b' := Leaf(bs[0].id, left);
    assert bs == [bs[0]];
    Single(bs[0]);
    Single(b');
    assert (left + right)[0] == left[0] == bs[0].entries[0];
    if right != [] {
      Single(Leaf(t.id, right));
    }
  }

  /** A key below the least one is nowhere in the tree. */
  lemma BelowAll<V>(ks: seq<Tree<V>>, h: nat, c: Caps, key: int)
    requires ks != [] && ShapeF(ks, h, c) && key < MinKey(ks[0])
    ensures !HasKey(FlatF(ks), key)
  {
    hide FlatF, Shape;
    FirstKey(ks, h, c);
  }

  /** Where erase looks for a key that is not below the least one. */
  lemma ChooseErase<V>(ks: seq<Tree<V>>, p: nat, key: int, h: nat, c: Caps)
    requires ks != [] && ShapeF(ks, h, c) && Sorted(FlatF(ks)) && IsSepRank(Seps(ks), key, p)
    requires !(p == 0 && MinKey(ks[0]) > key)
    ensures var i := if p == |ks| || MinKey(ks[p]) > key then p - 1 else p;
      i >= 0 && Belongs(ks, i, key) && i == Home(ks, key)
  {
    hide FlatF, HasKey, Below, Above;
    var i := if p == |ks| || MinKey(ks[p]) > key then p - 1 else p;
    var seps := Seps(ks);
    SepsSorted(ks, h, c);
    assert seps[i].key == MinKey(ks[i]);
    assert i + 1 < |ks| ==> seps[i + 1].key == MinKey(ks[i + 1]);
    KeyContext(ks, i, h, c, key);
    ChildHasKey(ks, i, key);
    HomeIs(ks, i, key);
  }

  lemma KeepsPart<V>(b: Store<V>, b': Store<V>, x: multiset<nat>, y: multiset<nat>)
    requires Keeps(b, b', x + y)
    ensures Keeps(b, b', x) && Keeps(b, b', y)
  {
    assert forall i :: i in x || i in y ==> i in x + y;
  }

  lemma KeepsOne<V>(b: Store<V>, b': Store<V>, x: nat)
    requires Keeps(b, b', multiset{x}) && x in b && b[x].Index?
    ensures x in b' && b'[x] == b[x]
  {
    assert x in multiset{x};
  }

  /** The children of an index block after one of them lost a pair, shared pairs with the child before it, or went
      away. */
  lemma KidErased<V>(ks: seq<Tree<V>>, i: nat, key: int, res: Option<Sep>, kb: seq<Tree<V>>, kt: seq<Tree<V>>)
    requires i < |ks| && Below(FlatF(ks[..i]), key) && Above(FlatF(ks[i + 1..]), key)
    requires Erased(ks[(if i == 0 then 0 else i - 1)..i], ks[i], key, res, kb, kt)
    ensures var all := Replace(ks, if i == 0 then 0 else i - 1, i + 1, kb + kt);
      && HasKey(FlatF(ks), key) && FlatF(all) == Del(FlatF(ks), key)
      && |all| <= |ks|
      && Seps(all) == if res == None then Seps(ks)[..i] + Seps(ks)[i + 1..] else Seps(ks)[i := res.value]
  {
    hide FlatF, IdsF, LeavesF, Seps, HasKey, Below, Above, Del;
    var j := if i == 0 then 0 else i - 1;
    KidFlat(ks, j, i, key, kb, kt);
    KidSeps(ks, j, i, kb, kt);
  }

  lemma KidFlat<V>(ks: seq<Tree<V>>, j: nat, i: nat, key: int, kb: seq<Tree<V>>, kt: seq<Tree<V>>)
    requires j <= i < |ks| && Below(FlatF(ks[..i]), key) && Above(FlatF(ks[i + 1..]), key)
    requires HasKey(Flat(ks[i]), key) && FlatF(kb) + FlatF(kt) == FlatF(ks[j..i]) + Del(Flat(ks[i]), key)
    ensures HasKey(FlatF(ks), key) && FlatF(Replace(ks, j, i + 1, kb + kt)) == Del(FlatF(ks), key)
  {
    hide FlatF, IdsF, LeavesF, Seps, HasKey, Below, Above, Del;
    Around(ks, i);
    DelInside(FlatF(ks[..i]), Flat(ks[i]), FlatF(ks[i + 1..]), key);
    Concat(ks[..j], ks[j..i]);
    assert ks[..i] == ks[..j] + ks[j..i];
    Concat3(ks[..j], kb + kt, ks[i + 1..]);
    Concat(kb, kt);
    Regroup3(FlatF(ks[..j]), FlatF(ks[j..i]), Del(Flat(ks[i]), key), FlatF(ks[i + 1..]));
  }

  lemma Regroup3<T>(a: seq<T>, b: seq<T>, c: seq<T>, d: seq<T>)
    ensures (a + b) + c + d == a + (b + c) + d
  {
  }

  lemma KidSeps<V>(ks: seq<Tree<V>>, j: nat, i: nat, kb: seq<Tree<V>>, kt: seq<Tree<V>>)
    requires j <= i < |ks| && Seps(kb) == Seps(ks[j..i])
    ensures Seps(Replace(ks, j, i + 1, kb + kt)) == Seps(ks)[..i] + Seps(kt) + Seps(ks)[i + 1..]
  {
    hide FlatF, IdsF, LeavesF, Seps, SepOf;
    SepsReplace(ks, j, i + 1, kb + kt);
    ConcatSeps(kb, kt);
    SepsCut(ks, i);
    SepsCut(ks[..i], j);
    assert ks[..i][j..] == ks[j..i];
    var s := Seps(ks);
    assert s[..i] == s[..j] + s[..i][j..];
    Regroup3(s[..j], s[..i][j..], Seps(kt), s[i + 1..]);
  }

  lemma NodeErased<V>(bs: seq<Tree<V>>, id: nat, ks: seq<Tree<V>>, all: seq<Tree<V>>, key: int, h: nat, c: Caps)
    requires HasKey(FlatF(ks), key) && FlatF(all) == Del(FlatF(ks), key) && ShapeF(all, h, c)
    ensures Erased(bs, Node(id, ks), key, if all == [] then None else Some(Sep(MinKey(all[0]), id)),
                   bs, if all == [] then [] else [Node(id, all)])
  {
    hide HasKey, Del;
    if all != [] {
      Single(Node(id, all));
      FirstKey(all, h, c);
    }
  }

  /** Two siblings and their children, shared out anew: the first keeps its least key. */
  ghost predicate Shared<V>(bs: seq<Tree<V>>, ks: seq<Tree<V>>, id: nat, res: Option<Sep>, bs': seq<Tree<V>>,
                            ts': seq<Tree<V>>) {
    && FlatF(bs') + FlatF(ts') == FlatF(bs) + FlatF(ks)
    && Seps(bs') == Seps(bs) && |ts'| <= 1
    && (ts' != [] ==> ts'[0].id == id)
    && res == (if ts' == [] then None else Some(SepOf(ts'[0])))
  }

  lemma NodesShared<V>(before: nat, bks: seq<Tree<V>>, id: nat, ks: seq<Tree<V>>, left: seq<Tree<V>>, h: nat, c: Caps)
    requires left <= bks + ks && left != [] && bks != [] && ShapeF(bks + ks, h, c)
    ensures var right := (bks + ks)[|left|..];
      Shared([Node(before, bks)], ks, id, if right == [] then None else Some(Sep(MinKey(right[0]), id)),
             [Node(before, left)], if right == [] then [] else [Node(id, right)])
  {
    hide Shape, Seps;
    var right := (bks + ks)[|left|..];
    assert left + right == bks + ks;
    ConcatFlat(left, right);
    ConcatFlat(bks, ks);
    ShapeParts(left, right, h, c);
    ShapeParts(bks, ks, h, c);
    Single(Node(before, bks));
    Single(Node(before, left));
    assert left[0] == bks[0];
    FirstKey(left, h, c);
    FirstKey(bks, h, c);
    if right != [] {
      FirstKey(right, h, c);
      Single(Node(id, right));
    }
  }

  lemma SharedErased<V>(bs: seq<Tree<V>>, id: nat, ks: seq<Tree<V>>, all: seq<Tree<V>>, key: int,
                        res: Option<Sep>, bs': seq<Tree<V>>, ts': seq<Tree<V>>)
    requires HasKey(FlatF(ks), key) && FlatF(all) == Del(FlatF(ks), key) && Shared(bs, all, id, res, bs', ts')
    ensures Erased(bs, Node(id, ks), key, res, bs', ts')
  {
    hide HasKey, Del;
  }

  lemma FirstStored<V>(b: Store<V>, ks: seq<Tree<V>>, h: nat, c: Caps)
    requires ks != [] && RepF(b, ks) && ShapeF(ks, h, c)
    ensures var t := ks[0];
      && t.id in b && !b[t.id].Record?
      && (b[t.id].Data? ==> b[t.id].entries != [] && b[t.id].entries[0].key == MinKey(t))
      && (b[t.id].Index? ==> b[t.id].seps != [] && b[t.id].seps[0].key == MinKey(t))
  {
    assert Rep(b, ks[0]) && Shape(ks[0], h, c);
    if ks[0].Node? {
      FirstKey(ks[0].kids, h - 1, c);
    }
  }

  lemma NodeFlat<V>(id: nat, ks: seq<Tree<V>>)
    ensures Flat(Node(id, ks)) == FlatF(ks)
  {
  }

  /** Erasing from a tree without a sibling. */
  lemma OnlyTree<V>(t: Tree<V>, key: int, res: Option<Sep>, bs: seq<Tree<V>>, ts: seq<Tree<V>>)
    requires Erased([], t, key, res, bs, ts)
    ensures bs == [] && bs + ts == ts && FlatF(ts) == Del(Flat(t), key)
    ensures ts != [] ==> res == Some(Sep(MinKey(ts[0]), t.id))
  {
    hide Del, HasKey;
    assert |Seps(bs)| == 0;
    var none: seq<Tree<V>> := [];
    assert bs == none && FlatF(none) == [];
    assert none + ts == ts && FlatF(none) + FlatF(ts) == FlatF(ts);
    assert FlatF(none) + Del(Flat(t), key) == Del(Flat(t), key);
  }

  lemma WholeRest<V>(id: nat, ks: seq<Tree<V>>)
    ensures ks[0..|ks|] == ks && Rest(id, ks, 0, |ks|, multiset{}) == multiset{} + multiset{id}
    ensures [] + LeavesF(ks[..0]) == [] && LeavesF(ks[|ks|..]) + [] == []
  {
  }

  lemma LookupAt<V>(es: seq<Entry<V>>, key: int, p: nat)
    requires p == Rank(es, key)
    ensures HasKey(es, key) <==> p < |es| && es[p].key == key
  {
  }
}
