/** Blocks of the store, and the trees they stand for.

    The store is a map from block index to block; index 0 is the head block and means "none" in a link.
    A tree value records, for proof only, which blocks make up a B+ tree and what they hold. */
module Trees {
  import opened SortedEntries

  datatype Sep = Sep(key: int, child: nat)

  datatype Block<+V> =
    | Data(prev: nat, next: nat, entries: seq<Entry<V>>)
    | Index(seps: seq<Sep>)
    | Record(last: nat, size: nat, slots: seq<nat>)

  type Store<V> = map<nat, Block<V>>

  datatype Tree<+V> = Leaf(id: nat, entries: seq<Entry<V>>) | Node(id: nat, kids: seq<Tree<V>>)

  /** How many pairs a data block and how many separators an index block can hold. */
  datatype Caps = Caps(data: nat, index: nat)

  // ---- what a tree and a forest hold ----

  ghost function Flat<V>(t: Tree<V>): seq<Entry<V>> {
    match t
    case Leaf(_, es) => es
    case Node(_, ks) => FlatF(ks)
  }

  ghost function FlatF<V>(ks: seq<Tree<V>>): seq<Entry<V>> {
    if ks == [] then [] else Flat(ks[0]) + FlatF(ks[1..])
  }

  ghost function Ids<V>(t: Tree<V>): multiset<nat> {
    match t
    case Leaf(id, _) => multiset{id}
    case Node(id, ks) => multiset{id} + IdsF(ks)
  }

  ghost function IdsF<V>(ks: seq<Tree<V>>): multiset<nat> {
    if ks == [] then multiset{} else Ids(ks[0]) + IdsF(ks[1..])
  }

  ghost function Leaves<V>(t: Tree<V>): seq<nat> {
    match t
    case Leaf(id, _) => [id]
    case Node(_, ks) => LeavesF(ks)
  }

  ghost function LeavesF<V>(ks: seq<Tree<V>>): seq<nat> {
    if ks == [] then [] else Leaves(ks[0]) + LeavesF(ks[1..])
  }

  ghost function MinKey<V>(t: Tree<V>): int {
    if Flat(t) == [] then 0 else Flat(t)[0].key
  }

  ghost function SepOf<V>(t: Tree<V>): Sep {
    Sep(MinKey(t), t.id)
  }

  /** The separators of an index block: the exact least key of each child, and where it is stored. */
  ghost function Seps<V>(ks: seq<Tree<V>>): (seps: seq<Sep>)
    ensures |seps| == |ks|
    ensures forall i :: 0 <= i < |ks| ==> seps[i] == SepOf(ks[i])
  {
    seq(|ks|, i requires 0 <= i < |ks| => SepOf(ks[i]))
  }

  /** All leaves at depth h, every block non-empty and within capacity. */
  ghost predicate Shape<V>(t: Tree<V>, h: nat, c: Caps) {
    match t
    case Leaf(_, es) => h == 0 && 0 < |es| <= c.data
    case Node(_, ks) => h > 0 && 0 < |ks| <= c.index && ShapeF(ks, h - 1, c)
  }

  ghost predicate ShapeF<V>(ks: seq<Tree<V>>, h: nat, c: Caps) {
    forall i :: 0 <= i < |ks| ==> Shape(ks[i], h, c)
  }

  /** The blocks of the store hold exactly this tree (leaf links aside). */
  ghost predicate Rep<V>(b: Store<V>, t: Tree<V>) {
    match t
    case Leaf(id, es) => id in b && b[id].Data? && b[id].entries == es
    case Node(id, ks) => id in b && b[id] == Index(Seps(ks)) && RepF(b, ks)
  }

  ghost predicate RepF<V>(b: Store<V>, ks: seq<Tree<V>>) {
    forall i :: 0 <= i < |ks| ==> Rep(b, ks[i])
  }

  /** The leaves in L are linked in this order, in both directions. */
  ghost predicate Chain<V>(b: Store<V>, L: seq<nat>) {
    forall i :: 0 <= i < |L| ==> Linked(b, L[i], PrevIn(L, i), NextIn(L, i))
  }

  ghost predicate Linked<V>(b: Store<V>, x: nat, prev: nat, next: nat) {
    x in b && b[x].Data? && b[x].prev == prev && b[x].next == next
  }

  ghost function PrevIn(L: seq<nat>, i: nat): nat
    requires i < |L|
  {
    if i == 0 then 0 else L[i - 1]
  }

  ghost function NextIn(L: seq<nat>, i: nat): nat
    requires i < |L|
  {
    if i == |L| - 1 then 0 else L[i + 1]
  }

  /** A forest in the store, its leaves linked between the leaves pre and post. */
  ghost predicate Placed<V>(b: Store<V>, ks: seq<Tree<V>>, h: nat, c: Caps, pre: seq<nat>, post: seq<nat>) {
    RepF(b, ks) && ShapeF(ks, h, c) && Chain(b, pre + LeavesF(ks) + post)
  }

  ghost predicate SameContent<V>(b: Store<V>, b': Store<V>, x: nat) {
    && x in b && x in b'
    && (b'[x] == b[x] || (b[x].Data? && b'[x].Data? && b'[x].entries == b[x].entries))
  }

  ghost predicate Keeps<V>(b: Store<V>, b': Store<V>, ids: multiset<nat>) {
    forall x :: x in ids ==> SameContent(b, b', x)
  }

  /** ids lists every block index from 1 below total exactly once. */
  ghost predicate Partition(ids: multiset<nat>, total: nat) {
    forall x: nat :: ids[x] == if 1 <= x < total then 1 else 0
  }

  // ---- forests ----

  lemma {:induction false} ConcatFlat<V>(a: seq<Tree<V>>, b: seq<Tree<V>>)
    ensures FlatF(a + b) == FlatF(a) + FlatF(b)
  {
    if a == [] {
      assert a + b == b;
    } else {
      assert (a + b)[1..] == a[1..] + b;
      ConcatFlat(a[1..], b);
      assert FlatF(a + b) == Flat(a[0]) + (FlatF(a[1..]) + FlatF(b));
    }
  }

  lemma {:induction false} ConcatIds<V>(a: seq<Tree<V>>, b: seq<Tree<V>>)
    ensures IdsF(a + b) == IdsF(a) + IdsF(b)
  {
    if a == [] {
      assert a + b == b;
    } else {
      assert (a + b)[1..] == a[1..] + b;
      ConcatIds(a[1..], b);
    }
  }

  lemma {:induction false} ConcatLeaves<V>(a: seq<Tree<V>>, b: seq<Tree<V>>)
    ensures LeavesF(a + b) == LeavesF(a) + LeavesF(b)
  {
    if a == [] {
      assert a + b == b;
    } else {
      assert (a + b)[1..] == a[1..] + b;
      ConcatLeaves(a[1..], b);
      assert LeavesF(a + b) == Leaves(a[0]) + (LeavesF(a[1..]) + LeavesF(b));
    }
  }

  lemma ConcatSeps<V>(a: seq<Tree<V>>, b: seq<Tree<V>>)
    ensures Seps(a + b) == Seps(a) + Seps(b)
  {
    hide SepOf;
  }

  lemma Concat<V>(a: seq<Tree<V>>, b: seq<Tree<V>>)
    ensures FlatF(a + b) == FlatF(a) + FlatF(b)
    ensures IdsF(a + b) == IdsF(a) + IdsF(b)
    ensures LeavesF(a + b) == LeavesF(a) + LeavesF(b)
    ensures Seps(a + b) == Seps(a) + Seps(b)
  {
    hide *;
    ConcatFlat(a, b);
    ConcatIds(a, b);
    ConcatLeaves(a, b);
    ConcatSeps(a, b);
  }

  lemma Single<V>(t: Tree<V>)
    ensures FlatF([t]) == Flat(t) && IdsF([t]) == Ids(t) && LeavesF([t]) == Leaves(t) && Seps([t]) == [SepOf(t)]
  {
    assert [t][1..] == [];
  }

  lemma Pair<V>(s: Tree<V>, t: Tree<V>)
    ensures FlatF([s, t]) == Flat(s) + Flat(t) && IdsF([s, t]) == Ids(s) + Ids(t)
    ensures LeavesF([s, t]) == Leaves(s) + Leaves(t) && Seps([s, t]) == [SepOf(s), SepOf(t)]
  {
    hide *;
    Single(s);
    Single(t);
    Concat([s], [t]);
    assert [s] + [t] == [s, t];
  }

  lemma Concat3<V>(a: seq<Tree<V>>, m: seq<Tree<V>>, c: seq<Tree<V>>)
    ensures FlatF(a + m + c) == FlatF(a) + FlatF(m) + FlatF(c)
    ensures IdsF(a + m + c) == IdsF(a) + IdsF(m) + IdsF(c)
    ensures LeavesF(a + m + c) == LeavesF(a) + LeavesF(m) + LeavesF(c)
    ensures Seps(a + m + c) == Seps(a) + Seps(m) + Seps(c)
  {
    hide *;
    Concat(a, m);
    Concat(a + m, c);
  }

  lemma Cut<T>(s: seq<T>, i: nat)
    requires i < |s|
    ensures s == s[..i] + [s[i]] + s[i + 1..]
  {
  }

  /** A forest seen from one of its trees. */
  lemma Around<V>(ks: seq<Tree<V>>, i: nat)
    requires i < |ks|
    ensures FlatF(ks) == FlatF(ks[..i]) + Flat(ks[i]) + FlatF(ks[i + 1..])
    ensures IdsF(ks) == IdsF(ks[..i]) + Ids(ks[i]) + IdsF(ks[i + 1..])
    ensures LeavesF(ks) == LeavesF(ks[..i]) + Leaves(ks[i]) + LeavesF(ks[i + 1..])
  {
    hide *;
    Single(ks[i]);
    Concat3(ks[..i], [ks[i]], ks[i + 1..]);
    Cut(ks, i);
  }

  lemma {:induction false} NonEmpty<V>(t: Tree<V>, h: nat, c: Caps)
    requires Shape(t, h, c)
    ensures Flat(t) != [] && Leaves(t) != []
    decreases t
  {
    if t.Node? {
      NonEmpty(t.kids[0], h - 1, c);
    }
  }

  lemma {:induction false} LeavesAreIds<V>(ks: seq<Tree<V>>)
    ensures multiset(LeavesF(ks)) <= IdsF(ks)
    decreases ks
  {
    if ks != [] {
      LeavesAreIds(ks[1..]);
      if ks[0].Node? { LeavesAreIds(ks[0].kids); }
      assert multiset(Leaves(ks[0])) <= Ids(ks[0]);
    }
  }

  lemma {:induction false} RepFrame<V>(b: Store<V>, b': Store<V>, t: Tree<V>)
    requires Rep(b, t) && Keeps(b, b', Ids(t))
    ensures Rep(b', t)
    decreases t
  {
    assert t.id in Ids(t);
    if t.Node? {
      forall i | 0 <= i < |t.kids|
        ensures Rep(b', t.kids[i])
      {
        Around(t.kids, i);
        RepFrame(b, b', t.kids[i]);
      }
    }
  }

  lemma RepFrameF<V>(b: Store<V>, b': Store<V>, ks: seq<Tree<V>>)
    requires RepF(b, ks) && Keeps(b, b', IdsF(ks))
    ensures RepF(b', ks)
  {
    forall i | 0 <= i < |ks|
      ensures Rep(b', ks[i])
    {
      Around(ks, i);
      RepFrame(b, b', ks[i]);
    }
  }

  lemma RepParts<V>(b: Store<V>, a: seq<Tree<V>>, d: seq<Tree<V>>)
    ensures RepF(b, a + d) <==> RepF(b, a) && RepF(b, d)
  {
    assert forall i :: 0 <= i < |a| ==> a[i] == (a + d)[i];
    assert forall i :: 0 <= i < |d| ==> d[i] == (a + d)[|a| + i];
  }

  lemma ShapeParts<V>(a: seq<Tree<V>>, d: seq<Tree<V>>, h: nat, c: Caps)
    ensures ShapeF(a + d, h, c) <==> ShapeF(a, h, c) && ShapeF(d, h, c)
  {
    assert forall i :: 0 <= i < |a| ==> a[i] == (a + d)[i];
    assert forall i :: 0 <= i < |d| ==> d[i] == (a + d)[|a| + i];
  }

  lemma PartsOf<V>(b: Store<V>, ks: seq<Tree<V>>, i: nat, j: nat, h: nat, c: Caps)
    requires i <= j <= |ks| && RepF(b, ks) && ShapeF(ks, h, c)
    ensures RepF(b, ks[..i]) && RepF(b, ks[i..j]) && RepF(b, ks[j..])
    ensures ShapeF(ks[..i], h, c) && ShapeF(ks[i..j], h, c) && ShapeF(ks[j..], h, c)
  {
  }

  lemma NodeParts<V>(b: Store<V>, id: nat, ks: seq<Tree<V>>, h: nat, c: Caps)
    requires RepF(b, [Node(id, ks)]) && ShapeF([Node(id, ks)], h, c)
    ensures id in b && b[id] == Index(Seps(ks)) && RepF(b, ks)
    ensures h > 0 && 0 < |ks| <= c.index && ShapeF(ks, h - 1, c)
  {
    assert Rep(b, [Node(id, ks)][0]) && Shape([Node(id, ks)][0], h, c);
  }

  // ---- order inside a forest ----

  lemma FirstKey<V>(ks: seq<Tree<V>>, h: nat, c: Caps)
    requires ks != [] && ShapeF(ks, h, c)
    ensures FlatF(ks) != [] && Flat(ks[0]) != []
    ensures FlatF(ks)[0] == Flat(ks[0])[0] && FlatF(ks)[0].key == MinKey(ks[0])
  {
    NonEmpty(ks[0], h, c);
  }

  lemma SepsSorted<V>(ks: seq<Tree<V>>, h: nat, c: Caps)
    requires ShapeF(ks, h, c) && Sorted(FlatF(ks))
    ensures forall i, j :: 0 <= i < j < |ks| ==> Seps(ks)[i].key < Seps(ks)[j].key
  {
    forall i, j | 0 <= i < j < |ks|
      ensures Seps(ks)[i].key < Seps(ks)[j].key
    {
      SepBefore(ks, i, j, h, c);
    }
  }

  lemma SepBefore<V>(ks: seq<Tree<V>>, i: nat, j: nat, h: nat, c: Caps)
    requires i < j < |ks| && ShapeF(ks, h, c) && Sorted(FlatF(ks))
    ensures MinKey(ks[i]) < MinKey(ks[j])
  {
    hide FlatF, Flat, IdsF, LeavesF, Seps, Shape, MinKey;
    CutTwice(ks, i, j);
    Concat3(ks[..i], ks[i..j], ks[j..]);
    SortedAround(FlatF(ks[..i]), FlatF(ks[i..j]), FlatF(ks[j..]));
    FirstKey(ks[i..j], h, c);
    FirstKey(ks[j..], h, c);
  }

  lemma CutTwice<T>(s: seq<T>, i: nat, j: nat)
    requires i <= j <= |s|
    ensures s == s[..i] + s[i..j] + s[j..]
  {
  }

  /** When k belongs at child i, everything to the left is below k and everything to the right above. */
  lemma KeyContext<V>(ks: seq<Tree<V>>, i: nat, h: nat, c: Caps, k: int)
    requires i < |ks| && ShapeF(ks, h, c) && Sorted(FlatF(ks))
    requires i == 0 || MinKey(ks[i]) <= k
    requires i + 1 < |ks| ==> k < MinKey(ks[i + 1])
    ensures Below(FlatF(ks[..i]), k) && Above(FlatF(ks[i + 1..]), k)
    ensures Sorted(Flat(ks[i]))
  {
    Around(ks, i);
    NonEmpty(ks[i], h, c);
    var pre, f, post := FlatF(ks[..i]), Flat(ks[i]), FlatF(ks[i + 1..]);
    SortedAround(pre, f, post);
    if i > 0 {
      BelowUp(pre, MinKey(ks[i]), k);
    }
    if i + 1 < |ks| {
      FirstKey(ks[i + 1..], h, c);
    }
    AboveFirst(post, k);
  }

  // ---- the leaf chain ----

  ghost predicate NoDup(L: seq<nat>) {
    forall i, j :: 0 <= i < j < |L| ==> L[i] != L[j]
  }

  lemma {:induction false} NoDupFromCount(L: seq<nat>)
    requires forall x :: multiset(L)[x] <= 1
    ensures NoDup(L)
  {
    forall i, j | 0 <= i < j < |L|
      ensures L[i] != L[j]
    {
      assert L == L[..j] + [L[j]] + L[j + 1..];
      assert L[i] in L[..j];
      assert multiset(L[..j])[L[i]] >= 1;
      var front, rest := multiset(L[..j]), multiset(L[j + 1..]);
      assert multiset(L) == front + multiset{L[j]} + rest;
      assert multiset(L)[L[i]] == front[L[i]] + multiset{L[j]}[L[i]] + rest[L[i]];
    }
  }

  ghost function Last(A: seq<nat>): nat {
    if A == [] then 0 else A[|A| - 1]
  }

  ghost function First(B: seq<nat>): nat {
    if B == [] then 0 else B[0]
  }

  lemma Neighbours<V>(b: Store<V>, A: seq<nat>, x: nat, B: seq<nat>)
    requires Chain(b, A + [x] + B)
    ensures Linked(b, x, Last(A), First(B))
    ensures A != [] ==> Last(A) in b && b[Last(A)].Data?
    ensures B != [] ==> First(B) in b && b[First(B)].Data?
  {
    var L := A + [x] + B;
    assert L[|A|] == x && Linked(b, L[|A|], PrevIn(L, |A|), NextIn(L, |A|));
    if A != [] {
      assert Linked(b, L[|A| - 1], PrevIn(L, |A| - 1), NextIn(L, |A| - 1));
    }
    if B != [] {
      assert Linked(b, L[|A| + 1], PrevIn(L, |A| + 1), NextIn(L, |A| + 1));
    }
  }

  lemma MiddleIsApart(A: seq<nat>, x: nat, B: seq<nat>)
    requires NoDup(A + [x] + B)
    ensures x !in A && x !in B && NoDup(A) && NoDup(B)
    ensures forall i, j :: 0 <= i < |A| && 0 <= j < |B| ==> A[i] != B[j]
  {
    var L := A + [x] + B;
    assert L[|A|] == x;
    assert forall i :: 0 <= i < |A| ==> L[i] == A[i];
    assert forall i :: 0 <= i < |B| ==> L[|A| + 1 + i] == B[i];
  }

  /** Rewriting the pairs of leaves keeps the chain. */
  lemma ChainKeep<V>(b: Store<V>, b': Store<V>, L: seq<nat>)
    requires Chain(b, L)
    requires forall x :: x in L && x in b && b[x].Data? ==>
      x in b' && b'[x].Data? && b'[x].prev == b[x].prev && b'[x].next == b[x].next
    ensures Chain(b', L)
  {
    forall i | 0 <= i < |L|
      ensures Linked(b', L[i], PrevIn(L, i), NextIn(L, i))
    {
      assert Linked(b, L[i], PrevIn(L, i), NextIn(L, i));
    }
  }

  lemma ChainIn<V>(b: Store<V>, L: seq<nat>)
    requires Chain(b, L)
    ensures forall x :: x in L ==> x in b && b[x].Data?
  {
    forall i | 0 <= i < |L|
      ensures L[i] in b && b[L[i]].Data?
    {
      assert Linked(b, L[i], PrevIn(L, i), NextIn(L, i));
    }
  }

  lemma ChainFrame<V>(b: Store<V>, b': Store<V>, L: seq<nat>)
    requires Chain(b, L) && forall x :: x in L ==> x in b && x in b' && b'[x] == b[x]
    ensures Chain(b', L)
  {
    forall i | 0 <= i < |L|
      ensures Linked(b', L[i], PrevIn(L, i), NextIn(L, i))
    {
      assert Linked(b, L[i], PrevIn(L, i), NextIn(L, i));
    }
  }

  /** Only the two neighbours of x change: x drops out of the chain. */
  lemma ChainRemove<V>(b: Store<V>, b': Store<V>, A: seq<nat>, x: nat, B: seq<nat>)
    requires Chain(b, A + [x] + B) && NoDup(A + [x] + B)
    requires forall y :: (y in A && y != Last(A)) || (y in B && y != First(B)) ==> y in b && y in b' && b'[y] == b[y]
    requires A != [] ==> var p := Last(A); p in b && b[p].Data? && p in b' && b'[p] == b[p].(next := First(B))
    requires B != [] ==> var n := First(B); n in b && b[n].Data? && n in b' && b'[n] == b[n].(prev := Last(A))
    ensures Chain(b', A + B)
  {
    var M := A + B;
    forall i | 0 <= i < |M|
      ensures Linked(b', M[i], PrevIn(M, i), NextIn(M, i))
    {
      if i < |A| {
        RemoveLeft(b, b', A, x, B, i);
      } else {
        RemoveRight(b, b', A, x, B, i - |A|);
      }
    }
  }

  lemma RemoveLeft<V>(b: Store<V>, b': Store<V>, A: seq<nat>, x: nat, B: seq<nat>, i: nat)
    requires Chain(b, A + [x] + B) && NoDup(A + [x] + B) && i < |A|
    requires forall y :: y in A && y != Last(A) ==> y in b && y in b' && b'[y] == b[y]
    requires var p := Last(A); p in b && b[p].Data? && p in b' && b'[p] == b[p].(next := First(B))
    ensures Linked(b', A[i], PrevIn(A + B, i), NextIn(A + B, i))
  {
    var L, M := A + [x] + B, A + B;
    MiddleIsApart(A, x, B);
    assert Linked(b, L[i], PrevIn(L, i), NextIn(L, i));
    assert L[i] == A[i] == M[i];
    assert PrevIn(L, i) == PrevIn(M, i) by {
      if i > 0 { assert L[i - 1] == A[i - 1] == M[i - 1]; }
    }
    if i < |A| - 1 {
      assert L[i + 1] == A[i + 1] == M[i + 1];
      assert A[i] in A && A[i] != Last(A);
    } else if B != [] {
      assert M[i + 1] == First(B);
    }
  }

  lemma RemoveRight<V>(b: Store<V>, b': Store<V>, A: seq<nat>, x: nat, B: seq<nat>, i: nat)
    requires Chain(b, A + [x] + B) && NoDup(A + [x] + B) && i < |B|
    requires forall y :: y in B && y != First(B) ==> y in b && y in b' && b'[y] == b[y]
    requires var n := First(B); n in b && b[n].Data? && n in b' && b'[n] == b[n].(prev := Last(A))
    ensures Linked(b', B[i], PrevIn(A + B, |A| + i), NextIn(A + B, |A| + i))
  {
    var L, M, j := A + [x] + B, A + B, |A| + 1 + i;
    MiddleIsApart(A, x, B);
    assert Linked(b, L[j], PrevIn(L, j), NextIn(L, j));
    assert L[j] == B[i];
    assert NextIn(L, j) == NextIn(M, |A| + i) by {
      if i < |B| - 1 { assert L[j + 1] == B[i + 1] == M[|A| + i + 1]; }
    }
    if i > 0 {
      assert L[j - 1] == B[i - 1] == M[|A| + i - 1];
      assert B[i] in B && B[i] != First(B);
    }
  }

  /** x.next and the prev of its successor change: y comes in right after x. */
  lemma ChainInsert<V>(b: Store<V>, b': Store<V>, A: seq<nat>, x: nat, y: nat, B: seq<nat>)
    requires Chain(b, A + [x] + B) && NoDup(A + [x] + B) && y !in A + [x] + B
    requires x in b && x in b' && b[x].Data? && b'[x].Data? && b'[x].prev == b[x].prev && b'[x].next == y
    requires Linked(b', y, x, First(B))
    requires B != [] ==> var n := First(B); n in b && b[n].Data? && n in b' && b'[n] == b[n].(prev := y)
    requires forall z :: (z in A || (z in B && z != First(B))) && z in b ==> z in b' && b'[z] == b[z]
    ensures Chain(b', A + [x, y] + B)
  {
    var M := A + [x, y] + B;
    forall i | 0 <= i < |M|
      ensures Linked(b', M[i], PrevIn(M, i), NextIn(M, i))
    {
      if i < |A| {
        InsertLeft(b, b', A, x, y, B, i);
      } else if i >= |A| + 2 {
        InsertRight(b, b', A, x, y, B, i - |A| - 2);
      } else if i == |A| {
        Neighbours(b, A, x, B);
        assert M[i] == x;
      }
    }
  }

  lemma InsertLeft<V>(b: Store<V>, b': Store<V>, A: seq<nat>, x: nat, y: nat, B: seq<nat>, i: nat)
    requires Chain(b, A + [x] + B) && i < |A|
    requires forall z :: z in A && z in b ==> z in b' && b'[z] == b[z]
    ensures var M := A + [x, y] + B; Linked(b', M[i], PrevIn(M, i), NextIn(M, i))
  {
    var L, M := A + [x] + B, A + [x, y] + B;
    assert Linked(b, L[i], PrevIn(L, i), NextIn(L, i));
    assert L[i] == A[i] == M[i] && L[i + 1] == M[i + 1];
    if i > 0 { assert L[i - 1] == M[i - 1]; }
  }

  lemma InsertRight<V>(b: Store<V>, b': Store<V>, A: seq<nat>, x: nat, y: nat, B: seq<nat>, i: nat)
    requires Chain(b, A + [x] + B) && NoDup(A + [x] + B) && i < |B|
    requires var n := First(B); n in b && b[n].Data? && n in b' && b'[n] == b[n].(prev := y)
    requires forall z :: z in B && z != First(B) && z in b ==> z in b' && b'[z] == b[z]
    ensures var M := A + [x, y] + B; Linked(b', M[|A| + 2 + i], PrevIn(M, |A| + 2 + i), NextIn(M, |A| + 2 + i))
  {
    var L, M, j := A + [x] + B, A + [x, y] + B, |A| + 1 + i;
    MiddleIsApart(A, x, B);
    assert Linked(b, L[j], PrevIn(L, j), NextIn(L, j));
    assert L[j] == B[i] == M[j + 1];
    assert NextIn(L, j) == NextIn(M, j + 1) by {
      if i < |B| - 1 { assert L[j + 1] == B[i + 1] == M[j + 2]; }
    }
    if i > 0 {
      assert L[j - 1] == B[i - 1] == M[j];
      assert B[i] in B && B[i] != First(B);
    } else {
      assert M[j] == y;
    }
  }

  // ---- replacing part of a forest ----

  ghost function Replace<V>(ks: seq<Tree<V>>, i: nat, j: nat, rs: seq<Tree<V>>): seq<Tree<V>>
    requires i <= j <= |ks|
  {
    ks[..i] + rs + ks[j..]
  }

  /** What is left of a tree when some children are set apart. */
  ghost function Rest<V>(id: nat, ks: seq<Tree<V>>, i: nat, j: nat, others: multiset<nat>): multiset<nat>
    requires i <= j <= |ks|
  {
    others + multiset{id} + IdsF(ks[..i]) + IdsF(ks[j..])
  }

  lemma RestIds<V>(id: nat, ks: seq<Tree<V>>, i: nat, j: nat, rs: seq<Tree<V>>, others: multiset<nat>)
    requires i <= j <= |ks|
    ensures IdsF(rs) + Rest(id, ks, i, j, others) == IdsF(Replace(ks, i, j, rs)) + (others + multiset{id})
  {
    hide FlatF, Flat, IdsF, Ids, LeavesF, Leaves, Seps;
    Concat3(ks[..i], rs, ks[j..]);
  }

  lemma RestLeaves<V>(ks: seq<Tree<V>>, i: nat, j: nat, rs: seq<Tree<V>>, pre: seq<nat>, post: seq<nat>)
    requires i <= j <= |ks|
    ensures (pre + LeavesF(ks[..i])) + LeavesF(rs) + (LeavesF(ks[j..]) + post)
         == pre + LeavesF(Replace(ks, i, j, rs)) + post
  {
    hide FlatF, Flat, IdsF, Ids, LeavesF, Leaves, Seps;
    Concat3(ks[..i], rs, ks[j..]);
    Regroup(pre, LeavesF(ks[..i]), LeavesF(rs), LeavesF(ks[j..]), post);
  }

  lemma RestLinks<V>(id: nat, ks: seq<Tree<V>>, i: nat, j: nat, others: multiset<nat>, pre: seq<nat>, post: seq<nat>)
    requires i <= j <= |ks| && multiset(pre) + multiset(post) <= others
    ensures multiset(pre + LeavesF(ks[..i])) + multiset(LeavesF(ks[j..]) + post) <= Rest(id, ks, i, j, others)
  {
    LeavesAreIds(ks[..i]);
    LeavesAreIds(ks[j..]);
  }

  lemma ChildPlaced<V>(b: Store<V>, id: nat, ks: seq<Tree<V>>, i: nat, j: nat, h: nat, c: Caps,
                       others: multiset<nat>, pre: seq<nat>, post: seq<nat>)
    requires Placed(b, [Node(id, ks)], h + 1, c, pre, post) && i <= j <= |ks|
    ensures Placed(b, ks[i..j], h, c, pre + LeavesF(ks[..i]), LeavesF(ks[j..]) + post)
    ensures IdsF(ks[i..j]) + Rest(id, ks, i, j, others) == IdsF([Node(id, ks)]) + others
  {
    hide *;
    PlacedIs(b, [Node(id, ks)], h + 1, c, pre, post);
    NodeParts(b, id, ks, h + 1, c);
    NodeIs(b, id, ks, h, c);
    PartsOf(b, ks, i, j, h, c);
    Single(Node(id, ks));
    RestIds(id, ks, i, j, ks[i..j], others);
    RestLeaves(ks, i, j, ks[i..j], pre, post);
    ReplaceSelf(ks, i, j);
    PlacedIs(b, ks[i..j], h, c, pre + LeavesF(ks[..i]), LeavesF(ks[j..]) + post);
  }

  lemma ReplaceSelf<V>(ks: seq<Tree<V>>, i: nat, j: nat)
    requires i <= j <= |ks|
    ensures Replace(ks, i, j, ks[i..j]) == ks
  {
  }

  lemma NodeIs<V>(b: Store<V>, id: nat, ks: seq<Tree<V>>, h: nat, c: Caps)
    requires RepF(b, ks) && ShapeF(ks, h, c) && 0 < |ks| <= c.index && id in b && b[id] == Index(Seps(ks))
    ensures Rep(b, Node(id, ks)) && Shape(Node(id, ks), h + 1, c)
    ensures Leaves(Node(id, ks)) == LeavesF(ks) && Ids(Node(id, ks)) == multiset{id} + IdsF(ks)
  {
  }

  lemma PairPlaced<V>(b: Store<V>, s: Tree<V>, t: Tree<V>, h: nat, c: Caps, pre: seq<nat>, post: seq<nat>)
    requires Rep(b, s) && Rep(b, t) && Shape(s, h, c) && Shape(t, h, c)
    requires Chain(b, pre + (Leaves(s) + Leaves(t)) + post)
    ensures Placed(b, [s, t], h, c, pre, post)
  {
    hide Rep, Shape, Chain;
    Pair(s, t);
  }

  lemma SinglePlaced<V>(b: Store<V>, t: Tree<V>, h: nat, c: Caps, pre: seq<nat>, post: seq<nat>)
    requires Rep(b, t) && Shape(t, h, c) && Chain(b, pre + Leaves(t) + post)
    ensures Placed(b, [t], h, c, pre, post)
  {
    hide Rep, Shape, Chain;
    Single(t);
  }

  lemma NodesPlaced<V>(b: Store<V>, id: nat, a: seq<Tree<V>>, id': nat, d: seq<Tree<V>>, h: nat, c: Caps,
                       others: multiset<nat>, pre: seq<nat>, post: seq<nat>)
    requires Placed(b, a + d, h, c, pre, post) && 0 < |a| <= c.index && 0 < |d| <= c.index
    requires id in b && b[id] == Index(Seps(a)) && id' in b && b[id'] == Index(Seps(d))
    ensures Placed(b, [Node(id, a), Node(id', d)], h + 1, c, pre, post)
    ensures IdsF([Node(id, a), Node(id', d)]) + others == IdsF(a + d) + (others + multiset{id, id'})
  {
    hide *;
    PlacedIs(b, a + d, h, c, pre, post);
    RepParts(b, a, d);
    ShapeParts(a, d, h, c);
    NodeIs(b, id, a, h, c);
    NodeIs(b, id', d, h, c);
    Concat(a, d);
    PairPlaced(b, Node(id, a), Node(id', d), h + 1, c, pre, post);
    Pair(Node(id, a), Node(id', d));
  }

  lemma PlacedIs<V>(b: Store<V>, ks: seq<Tree<V>>, h: nat, c: Caps, pre: seq<nat>, post: seq<nat>)
    ensures Placed(b, ks, h, c, pre, post) <==> RepF(b, ks) && ShapeF(ks, h, c) && Chain(b, pre + LeavesF(ks) + post)
  {
  }

  lemma NodePlaced<V>(b: Store<V>, id: nat, ks: seq<Tree<V>>, h: nat, c: Caps,
                      others: multiset<nat>, pre: seq<nat>, post: seq<nat>)
    requires Placed(b, ks, h, c, pre, post) && 0 < |ks| <= c.index
    requires id in b && b[id] == Index(Seps(ks))
    ensures Placed(b, [Node(id, ks)], h + 1, c, pre, post)
    ensures IdsF([Node(id, ks)]) + others == IdsF(ks) + (others + multiset{id})
  {
    hide *;
    PlacedIs(b, ks, h, c, pre, post);
    NodeIs(b, id, ks, h, c);
    SinglePlaced(b, Node(id, ks), h + 1, c, pre, post);
    Single(Node(id, ks));
  }

  /** Putting changed children back among their untouched siblings. */
  lemma RegatherForest<V>(b: Store<V>, b': Store<V>, id: nat, ks: seq<Tree<V>>, i: nat, j: nat, rs: seq<Tree<V>>,
                          h: nat, c: Caps, others: multiset<nat>)
    requires RepF(b, [Node(id, ks)]) && ShapeF([Node(id, ks)], h + 1, c) && i <= j <= |ks|
    requires RepF(b', rs) && ShapeF(rs, h, c) && Keeps(b, b', Rest(id, ks, i, j, others))
    ensures RepF(b', Replace(ks, i, j, rs)) && ShapeF(Replace(ks, i, j, rs), h, c)
    ensures id in b' && b'[id] == Index(Seps(ks)) && Keeps(b, b', others)
  {
    hide RepF, ShapeF, FlatF, LeavesF, IdsF, Seps;
    NodeParts(b, id, ks, h + 1, c);
    PartsOf(b, ks, i, j, h, c);
    RepFrameF(b, b', ks[..i]);
    RepFrameF(b, b', ks[j..]);
    RepParts(b', ks[..i], rs);
    RepParts(b', ks[..i] + rs, ks[j..]);
    ShapeParts(ks[..i], rs, h, c);
    ShapeParts(ks[..i] + rs, ks[j..], h, c);
    assert id in Rest(id, ks, i, j, others);
  }

  lemma SepsCut<V>(ks: seq<Tree<V>>, i: nat)
    requires i <= |ks|
    ensures Seps(ks[..i]) == Seps(ks)[..i] && Seps(ks[i..]) == Seps(ks)[i..]
  {
    hide SepOf;
  }

  lemma SepsReplace<V>(ks: seq<Tree<V>>, i: nat, j: nat, rs: seq<Tree<V>>)
    requires i <= j <= |ks|
    ensures Seps(Replace(ks, i, j, rs)) == Seps(ks)[..i] + Seps(rs) + Seps(ks)[j..]
  {
    hide FlatF, Flat, IdsF, Ids, LeavesF, Leaves, SepOf;
    Concat3(ks[..i], rs, ks[j..]);
    SepsCut(ks, i);
    SepsCut(ks, j);
  }

  lemma PutReplace<V>(ks: seq<Tree<V>>, i: nat, rs: seq<Tree<V>>, e: Entry<V>)
    requires i < |ks| && FlatF(rs) == Put(Flat(ks[i]), e)
    requires Below(FlatF(ks[..i]), e.key) && Above(FlatF(ks[i + 1..]), e.key)
    ensures FlatF(Replace(ks, i, i + 1, rs)) == Put(FlatF(ks), e)
  {
    hide FlatF, Flat, IdsF, Ids, LeavesF, Leaves, Seps;
    Around(ks, i);
    Concat3(ks[..i], rs, ks[i + 1..]);
    PutInside(FlatF(ks[..i]), Flat(ks[i]), FlatF(ks[i + 1..]), e);
  }

  lemma MinAfterPut<V>(t: Tree<V>, rs: seq<Tree<V>>, e: Entry<V>, h: nat, c: Caps)
    requires Flat(t) != [] && rs != [] && ShapeF(rs, h, c) && FlatF(rs) == Put(Flat(t), e)
    ensures MinKey(rs[0]) == if e.key < MinKey(t) then e.key else MinKey(t)
  {
    FirstKey(rs, h, c);
  }

  /** A forest behind some other trees, seen with them or as part of the surroundings. */
  lemma BeforePlaced<V>(b: Store<V>, bs: seq<Tree<V>>, ks: seq<Tree<V>>, h: nat, c: Caps,
                        others: multiset<nat>, pre: seq<nat>, post: seq<nat>)
    ensures Placed(b, bs + ks, h, c, pre, post) <==>
      RepF(b, bs) && ShapeF(bs, h, c) && Placed(b, ks, h, c, pre + LeavesF(bs), post)
    ensures IdsF(bs + ks) + others == IdsF(ks) + (others + IdsF(bs))
    ensures multiset(pre) + multiset(post) <= others ==>
      multiset(pre + LeavesF(bs)) + multiset(post) <= others + IdsF(bs)
  {
    hide *;
    PlacedIs(b, bs + ks, h, c, pre, post);
    PlacedIs(b, ks, h, c, pre + LeavesF(bs), post);
    RepParts(b, bs, ks);
    ShapeParts(bs, ks, h, c);
    Concat(bs, ks);
    LeavesAreIds(bs);
    assert pre + (LeavesF(bs) + LeavesF(ks)) + post == (pre + LeavesF(bs)) + LeavesF(ks) + post;
    assert multiset(pre + LeavesF(bs)) == multiset(pre) + multiset(LeavesF(bs));
  }
}
