/** Reading the pairs of a tree off its chain of leaves. */
module LeafScan {
  import opened SortedEntries
  import opened Trees

  ghost function EntriesOf<V>(b: Store<V>, x: nat): seq<Entry<V>> {
    if x in b && b[x].Data? then b[x].entries else []
  }

  /** The pairs stored in a chain of leaves. */
  ghost function Stored<V>(b: Store<V>, L: seq<nat>): seq<Entry<V>> {
    if L == [] then [] else EntriesOf(b, L[0]) + Stored(b, L[1..])
  }

  /** How many pairs precede slot p of leaf j. */
  ghost function Pos<V>(b: Store<V>, L: seq<nat>, j: nat, p: nat): nat
    requires j <= |L|
  {
    |Stored(b, L[..j])| + p
  }

  lemma {:induction false} StoredConcat<V>(b: Store<V>, A: seq<nat>, B: seq<nat>)
    ensures Stored(b, A + B) == Stored(b, A) + Stored(b, B)
  {
    if A == [] {
      assert A + B == B;
    } else {
      assert (A + B)[1..] == A[1..] + B;
      StoredConcat(b, A[1..], B);
      assert Stored(b, A + B) == EntriesOf(b, A[0]) + (Stored(b, A[1..]) + Stored(b, B));
    }
  }

  lemma {:induction false} StoredIsFlat<V>(b: Store<V>, ks: seq<Tree<V>>)
    requires RepF(b, ks)
    ensures Stored(b, LeavesF(ks)) == FlatF(ks)
    decreases ks
  {
    if ks != [] {
      assert Rep(b, ks[0]);
      if ks[0].Node? {
        StoredIsFlat(b, ks[0].kids);
      } else {
        assert Leaves(ks[0])[1..] == [];
      }
      assert RepF(b, ks[1..]);
      StoredIsFlat(b, ks[1..]);
      StoredConcat(b, Leaves(ks[0]), LeavesF(ks[1..]));
    }
  }

  lemma StoredAround<V>(b: Store<V>, L: seq<nat>, j: nat)
    requires j < |L|
    ensures Stored(b, L) == Stored(b, L[..j]) + EntriesOf(b, L[j]) + Stored(b, L[j + 1..])
    ensures Pos(b, L, j + 1, 0) == Pos(b, L, j, |EntriesOf(b, L[j])|)
  {
    StoredOne(b, L[j]);
    Cut(L, j);
    StoredConcat(b, L[..j], [L[j]]);
    StoredConcat(b, L[..j] + [L[j]], L[j + 1..]);
    assert L[..j + 1] == L[..j] + [L[j]];
  }

  lemma StoredOne<V>(b: Store<V>, x: nat)
    ensures Stored(b, [x]) == EntriesOf(b, x)
  {
    assert [x][1..] == [];
  }

  /** Slot p of leaf j, as an index into the whole sequence. */
  lemma At<V>(b: Store<V>, L: seq<nat>, j: nat, p: nat)
    requires j < |L| && p < |EntriesOf(b, L[j])|
    ensures Pos(b, L, j, p) < |Stored(b, L)| && Stored(b, L)[Pos(b, L, j, p)] == EntriesOf(b, L[j])[p]
  {
    StoredAround(b, L, j);
  }

  lemma AtEnd<V>(b: Store<V>, L: seq<nat>, j: nat)
    requires j < |L|
    ensures Pos(b, L, |L|, 0) == |Stored(b, L)|
    ensures j == |L| - 1 ==> Pos(b, L, j, |EntriesOf(b, L[j])|) == |Stored(b, L)|
    ensures Pos(b, L, j, |EntriesOf(b, L[j])|) <= |Stored(b, L)|
  {
    assert L[..|L|] == L;
    StoredAround(b, L, j);
  }

  /** The leaf where a key belongs splits the whole sequence around it. */
  lemma RankInLeaf<V>(b: Store<V>, L: seq<nat>, j: nat, key: int)
    requires j < |L| && Below(Stored(b, L[..j]), key) && Above(Stored(b, L[j + 1..]), key)
    ensures Rank(Stored(b, L), key) == Pos(b, L, j, Rank(EntriesOf(b, L[j]), key))
    ensures HasKey(Stored(b, L), key) <==> HasKey(EntriesOf(b, L[j]), key)
  {
    hide Stored, HasKey;
    StoredAround(b, L, j);
    RankInside(Stored(b, L[..j]), EntriesOf(b, L[j]), Stored(b, L[j + 1..]), key);
  }

  lemma {:induction false} LeavesHold<V>(b: Store<V>, ks: seq<Tree<V>>, h: nat, c: Caps)
    requires RepF(b, ks) && ShapeF(ks, h, c)
    ensures forall x :: x in LeavesF(ks) ==> EntriesOf(b, x) != []
    decreases ks
  {
    if ks != [] {
      assert Rep(b, ks[0]) && Shape(ks[0], h, c);
      if ks[0].Node? {
        LeavesHold(b, ks[0].kids, h - 1, c);
      }
      assert RepF(b, ks[1..]) && ShapeF(ks[1..], h, c);
      LeavesHold(b, ks[1..], h, c);
    }
  }

  /** Leaf id is the j-th of the chain L, and its links say so. */
  ghost predicate Cursor<V>(b: Store<V>, L: seq<nat>, j: nat, id: nat) {
    && j < |L| && L[j] == id && id in b && b[id].Data? && b[id].entries != []
    && (if j == |L| - 1 then b[id].next == 0 else b[id].next == L[j + 1] != 0)
    && (if j == 0 then b[id].prev == 0 else b[id].prev == L[j - 1] != 0)
  }

  lemma CursorAt<V>(b: Store<V>, L: seq<nat>, j: nat)
    requires Chain(b, L) && 0 !in L && j < |L| && forall x :: x in L ==> EntriesOf(b, x) != []
    ensures Cursor(b, L, j, L[j]) && L[j] != 0
  {
    assert Linked(b, L[j], PrevIn(L, j), NextIn(L, j));
    assert L[j] in L;
    if j > 0 { assert L[j - 1] in L; }
    if j < |L| - 1 { assert L[j + 1] in L; }
  }

  /** Child i is where a search for key, present or not, goes on. */
  ghost predicate Leads<V>(ks: seq<Tree<V>>, i: nat, key: int) {
    i < |ks| && Below(FlatF(ks[..i]), key) && Above(FlatF(ks[i + 1..]), key) && Sorted(Flat(ks[i]))
  }

  /** A subtree on the way from the root to the leaf where key belongs, among the leaves L. */
  ghost predicate OnPath<V>(b: Store<V>, L: seq<nat>, pre: seq<nat>, t: Tree<V>, post: seq<nat>, h: nat, c: Caps,
                            key: int) {
    && Rep(b, t) && Shape(t, h, c) && Sorted(Flat(t))
    && L == pre + Leaves(t) + post
    && Below(Stored(b, pre), key) && Above(Stored(b, post), key)
  }

  lemma Descend<V>(b: Store<V>, L: seq<nat>, pre: seq<nat>, t: Tree<V>, post: seq<nat>, h: nat, c: Caps, key: int,
                   i: nat)
    requires OnPath(b, L, pre, t, post, h, c, key) && t.Node? && Leads(t.kids, i, key)
    ensures h > 0 && OnPath(b, L, pre + LeavesF(t.kids[..i]), t.kids[i], LeavesF(t.kids[i + 1..]) + post, h - 1, c, key)
  {
    hide FlatF, Stored, LeavesF, Sorted;
    var ks := t.kids;
    PartsOf(b, ks, i, i + 1, h - 1, c);
    Around(ks, i);
    StoredIsFlat(b, ks[..i]);
    StoredIsFlat(b, ks[i + 1..]);
    StoredConcat(b, pre, LeavesF(ks[..i]));
    StoredConcat(b, LeavesF(ks[i + 1..]), post);
    Regroup(pre, LeavesF(ks[..i]), Leaves(ks[i]), LeavesF(ks[i + 1..]), post);
  }

  lemma Arrive<V>(b: Store<V>, L: seq<nat>, pre: seq<nat>, t: Tree<V>, post: seq<nat>, h: nat, c: Caps, key: int)
    requires OnPath(b, L, pre, t, post, h, c, key) && t.Leaf?
    ensures |pre| < |L| && L[|pre|] == t.id && t.id in b && b[t.id].Data? && Sorted(b[t.id].entries)
    ensures Below(Stored(b, L[..|pre|]), key) && Above(Stored(b, L[|pre| + 1..]), key)
  {
    assert L[..|pre|] == pre && L[|pre| + 1..] == post;
  }

  /** The child find_data goes on to. */
  lemma ChooseFind<V>(ks: seq<Tree<V>>, p: nat, key: int, h: nat, c: Caps)
    requires ks != [] && ShapeF(ks, h, c) && Sorted(FlatF(ks)) && p <= |ks|
    requires forall i :: 0 <= i < p ==> MinKey(ks[i]) < key
    requires p < |ks| ==> MinKey(ks[p]) >= key
    ensures var i := if p == |ks| || (p != 0 && MinKey(ks[p]) > key) then p - 1 else p;
      0 <= i < |ks| && Leads(ks, i, key)
  {
    hide FlatF, Below, Above;
    var i := if p == |ks| || (p != 0 && MinKey(ks[p]) > key) then p - 1 else p;
    SepsSorted(ks, h, c);
    var seps := Seps(ks);
    assert seps[i].key == MinKey(ks[i]);
    assert i + 1 < |ks| ==> seps[i + 1].key == MinKey(ks[i + 1]);
    KeyContext(ks, i, h, c, key);
  }

  lemma StoredNothing<V>(b: Store<V>)
    ensures Stored(b, []) == []
  {
  }

  lemma PathStored<V>(b: Store<V>, L: seq<nat>, pre: seq<nat>, t: Tree<V>, post: seq<nat>, h: nat, c: Caps, key: int)
    requires OnPath(b, L, pre, t, post, h, c, key)
    ensures t.id in b && !b[t.id].Record? && (t.Leaf? <==> b[t.id].Data?)
  {
    hide Stored, Flat, FlatF, Leaves, LeavesF;
  }

  lemma PathNode<V>(b: Store<V>, L: seq<nat>, pre: seq<nat>, t: Tree<V>, post: seq<nat>, h: nat, c: Caps, key: int)
    requires OnPath(b, L, pre, t, post, h, c, key) && t.id in b && b[t.id].Index?
    ensures t.Node? && h > 0 && b[t.id] == Index(Seps(t.kids)) && t.kids != []
    ensures ShapeF(t.kids, h - 1, c) && Sorted(FlatF(t.kids))
  {
    hide Stored, FlatF, Leaves, LeavesF, Seps, Below, Above, Sorted;
  }

  /** Subtree t lies on the left (or right) edge of a tree whose first (or last) leaf is x. */
  ghost predicate Border<V>(b: Store<V>, x: nat, t: Tree<V>, h: nat, c: Caps, last: bool) {
    Rep(b, t) && Shape(t, h, c) && Leaves(t) != [] && x == Leaves(t)[if last then |Leaves(t)| - 1 else 0]
  }

  /** The first (or last) child of an index block stays on the edge. */
  lemma BorderDown<V>(b: Store<V>, x: nat, t: Tree<V>, h: nat, c: Caps, last: bool)
    requires Border(b, x, t, h, c, last) && t.id in b && !b[t.id].Data?
    ensures h > 0 && t.Node? && b[t.id].Index? && |b[t.id].seps| == |t.kids| > 0
    ensures var i := if last then |t.kids| - 1 else 0;
      && b[t.id].seps[i].child == t.kids[i].id && t.kids[i].id in b && !b[t.kids[i].id].Record?
      && Border(b, x, t.kids[i], h - 1, c, last)
  {
    hide FlatF;
    var ks := t.kids;
    var i := if last then |ks| - 1 else 0;
    assert Seps(ks)[i] == SepOf(ks[i]);
    assert RepF(b, ks) && ShapeF(ks, h - 1, c);
    assert Rep(b, ks[i]);
    assert Shape(ks[i], h - 1, c);
    NonEmpty(ks[i], h - 1, c);
    Around(ks, i);
    if last {
      assert ks[i + 1..] == [];
    } else {
      assert ks[..i] == [];
    }
  }

  lemma BorderLeaf<V>(b: Store<V>, x: nat, t: Tree<V>, h: nat, c: Caps, last: bool)
    requires Border(b, x, t, h, c, last) && t.id in b && b[t.id].Data?
    ensures t.Leaf? && x == t.id && Leaves(t) == [x]
  {
  }
}
