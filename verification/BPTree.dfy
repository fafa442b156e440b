/** The B+ tree over the block store. */
module BPTrees {
  import opened Options
  import opened SortedEntries
  import opened Trees
  import opened BlockStore
  import opened LeafScan
  import opened TreeEdits

  class BPTree<V> {
    const impl: BPTreeImpl<V>
    /** The tree in the store (empty or one tree), and the depth of its leaves. */
    ghost var root: seq<Tree<V>>
    ghost var height: nat

    ghost predicate Valid()
      reads this, impl
    {
      && |root| <= 1
      && Ready(root, height, multiset{}, [], [])
      && Sorted(FlatF(root))
      && impl.beginBlock == (if root == [] then 0 else root[0].id)
    }

    /** The pairs of the tree in key order: its abstract value. */
    ghost function Pairs(): seq<Entry<V>>
      reads this
    {
      FlatF(root)
    }

    /** No block is lost or counted twice. */
    lemma Counted()
      requires Valid()
      ensures impl.total == 1 + impl.validBlocks + impl.deletedBlocks
    {
      hide FreeList, Placed, Partition;
      impl.Conservation(IdsF(root) + multiset{});
    }

    constructor (dataPair: pos, indexPair: pos)
      requires (BLOCK_SIZE - DATA_BEGIN) / dataPair >= 1 && (BLOCK_SIZE - INDEX_BEGIN) / indexPair >= 2
      ensures Valid() && Pairs() == [] && fresh(impl)
    {
      impl := new BPTreeImpl(dataPair, indexPair);
      root, height := [], 0;
    }

    method Insert(key: int, value: V) returns (ok: bool)
      requires Valid()
      modifies this, impl
      ensures Valid()
      ensures ok <==> !HasKey(old(Pairs()), key)
      ensures Pairs() == if ok then Put(old(Pairs()), Entry(key, value)) else old(Pairs())
      ensures ok ==> (root, impl.Unused()) == InsertionAtRoot(old(root), Entry(key, value), old(impl.Unused()))
      ensures !ok ==> root == old(root) && unchanged(impl)
    {
      hide FreeList, Partition, Placed, FlatF, IdsF, LeavesF, Put, HasKey, Sorted, Insertion, NextOf, Take;
      if impl.beginBlock == 0 {
        ok := true;
        RootIsNotZero();
        PutFirst(Entry(key, value));
        FirstLeaf(Entry(key, value));
      } else {
        var link;
        ghost var rs;
        Single(root[0]);
        assert root == [root[0]];
        ok, link, rs := InsertImpl(key, value, impl.beginBlock, root[0], height, multiset{}, [], []);
        if ok {
          PutSorted(Pairs(), Entry(key, value));
          root := rs;
          if link.Some? {
            NewRoot(link.value);
          }
        }
      }
    }

    lemma RootIsNotZero()
      requires Valid()
      ensures impl.beginBlock == 0 <==> root == []
      ensures root == [] ==> Pairs() == [] && forall k :: !HasKey(Pairs(), k)
    {
      hide FreeList, Placed;
      impl.OwnedApart(IdsF(root), multiset{});
      if root != [] {
        assert root[0].id in Ids(root[0]);
        assert root[0].id in IdsF(root);
      }
    }

    method FirstLeaf(e: Entry<V>)
      requires Valid() && root == []
      modifies this, impl
      ensures Valid() && Pairs() == [e]
      ensures root == [Leaf(NextOf(old(impl.Unused())), [e])] && impl.Unused() == Take(old(impl.Unused()))
    {
      hide FreeList, Partition;
      var id := impl.CreateBlock(Data(0, 0, []), multiset{});
      ghost var b := impl.blocks;
      var fits := impl.DataCanInsert(id);
      assert fits;
      impl.DataInsert(id, |impl.blocks[id].entries|, e);
      impl.OwnedFrame(b, multiset{} + multiset{id});
      impl.beginBlock := id;
      ghost var t := Leaf(id, [e]);
      root, height := [t], 0;
      Single(t);
      assert [] + Leaves(t) + [] == [id];
      SinglePlaced(impl.blocks, t, 0, impl.Capacity(), [], []);
      assert IdsF([t]) + multiset{} == multiset{} + multiset{id};
    }

    /** The root was split in two: a new root over both halves. */
    method NewRoot(link: Sep)
      requires |root| == 2 && Ready(root, height, multiset{}, [], []) && Sorted(FlatF(root))
      requires impl.beginBlock == root[0].id && link == SepOf(root[1])
      modifies this, impl
      ensures Valid() && Pairs() == old(Pairs())
      ensures root == [Node(NextOf(old(impl.Unused())), old(root))] && impl.Unused() == Take(old(impl.Unused()))
    {
      hide FreeList, Partition, Placed, FlatF, IdsF, LeavesF, Sorted, Chain, RepF, ShapeF, Ready, NextOf, Take;
      ghost var ks, none := root, multiset{};
      var newId := AllocRoot();
      ghost var b := impl.blocks;
      FirstStored(b, ks, height, impl.Capacity());
      var before := impl.blocks[impl.beginBlock];
      var firstKey := if before.Data? then before.entries[0].key else before.seps[0].key;
      impl.IndexInsert(newId, 0, Sep(firstKey, impl.beginBlock));
      var fits := impl.IndexCanInsert(newId);
      assert fits;
      impl.IndexInsert(newId, 1, link);
      assert Seps(ks) == [SepOf(ks[0]), SepOf(ks[1])];
      WroteIndex(b, ks, height, none, [], [], multiset{newId});
      NodeReady(newId, ks, height, none, [], []);
      NodeFlat(newId, ks);
      Single(Node(newId, ks));
      SetRoot(newId, ks);
    }

    method SetRoot(id: nat, ghost ks: seq<Tree<V>>)
      requires Ready([Node(id, ks)], height + 1, multiset{}, [], []) && Sorted(FlatF([Node(id, ks)]))
      modifies this, impl`beginBlock
      ensures Valid() && root == [Node(id, ks)]
    {
      hide FreeList, Partition, Placed, FlatF, IdsF, LeavesF, Sorted;
      impl.beginBlock := id;
      root, height := [Node(id, ks)], height + 1;
    }

    method AllocRoot() returns (newId: nat)
      requires root != [] && Ready(root, height, multiset{}, [], [])
      modifies impl
      ensures ReadyIn(impl.blocks, root, height, multiset{} + multiset{newId}, [], [])
      ensures RepF(impl.blocks, root) && ShapeF(root, height, impl.Capacity()) && impl.Capacity().index >= 2
      ensures newId in impl.blocks && impl.blocks[newId] == Index([]) && impl.beginBlock == old(impl.beginBlock)
      ensures newId == NextOf(old(impl.Unused())) && impl.Unused() == Take(old(impl.Unused()))
    {
      hide FreeList, Partition, Placed, NextOf, Take;
      ghost var none := multiset{};
      ReadyGives(root, height, none, [], []);
      newId := impl.CreateBlock(Index([]), IdsF(root) + none);
      var fits := impl.IndexCanInsert(newId);
      assert fits;
      Created(old(impl.blocks), root, height, none, [], [], newId);
      ReadyGives(root, height, none + multiset{newId}, [], []);
    }

    method Erase(key: int) returns (ok: bool)
      requires Valid()
      modifies this, impl
      ensures Valid()
      ensures ok <==> HasKey(old(Pairs()), key)
      ensures Pairs() == if ok then Del(old(Pairs()), key) else old(Pairs())
      ensures ok ==> old(root) != [] && (root, impl.Unused()) == ErasureAtRoot(old(root), key, old(impl.Unused()))
      ensures ok && root != [] && root[0].Node? && root[0].id == old(root)[0].id ==> |root[0].kids| >= 2
      ensures ok && root != [] && root[0].id != old(root)[0].id ==>
        height == old(height) - 1 && impl.stack != [] && impl.stack[|impl.stack| - 1] == old(root)[0].id
      ensures !ok ==> root == old(root) && unchanged(impl)
    {
      hide FreeList, Partition, Placed, Rank, Del, HasKey, FlatF, IdsF, LeavesF, Erasure, ErasureAtRoot, Sorted;
      RootIsNotZero();
      if impl.beginBlock == 0 {
        return false;
      }
      assert root == [root[0]] && [] + [root[0]] == [root[0]];
      Single(root[0]);
      var res;
      ghost var bs, ts;
      ok, res, bs, ts := EraseImpl(key, 0, impl.beginBlock, [], root[0], height, multiset{}, [], []);
      if ok {
        DelSorted(Pairs(), key);
        OnlyTree(root[0], key, res, bs, ts);
        RootErased(root, key, old(impl.Unused()), bs, ts, impl.Unused());
      }
      root := ts;
      if res == None {
        impl.beginBlock := 0;
        return;
      }
      RootStored();
      if impl.blocks[res.value.child].Index? && ok {
        LowerRoot(res.value.child);
        RootStored();
      }
    }

    lemma RootErased(r: seq<Tree<V>>, key: int, f: Free, bs: seq<Tree<V>>, ts: seq<Tree<V>>, g: Free)
      requires r != [] && (bs, ts, g) == Erasure([], r[0], key, f)
      ensures ErasureAtRoot(r, key, f) ==
        if ts != [] && ts[0].Node? && |ts[0].kids| == 1 then (ts[0].kids, Give(g, ts[0].id)) else (ts, g)
    {
    }

    lemma RootStored()
      requires Valid() && root != []
      ensures root[0].id in impl.blocks && (root[0].Node? <==> impl.IsIndex(root[0].id))
      ensures root[0].id !in impl.stack
    {
      hide FreeList, Chain, Partition;
      ReadyGives(root, height, multiset{}, [], []);
      assert Rep(impl.blocks, root[0]);
      impl.OwnedApart(IdsF(root), multiset{});
      assert root[0].id in Ids(root[0]);
      assert root[0].id in IdsF(root);
    }

    /** A root index block with a single child gives way to that child. */
    method LowerRoot(id: nat)
      requires Valid() && root != [] && id == impl.beginBlock && impl.IsIndex(id)
      modifies this, impl
      ensures Valid() && Pairs() == old(Pairs())
      ensures old(root)[0].Node? && root == if |old(root)[0].kids| == 1 then old(root)[0].kids else old(root)
      ensures old(root)[0].kids != []
      ensures if |old(root)[0].kids| == 1 then
                impl.Unused() == Give(old(impl.Unused()), id) && height == old(height) - 1
              else impl.Unused() == old(impl.Unused()) && height == old(height)
    {
      hide FreeList, Partition, Placed, FlatF, IdsF, LeavesF, Sorted;
      ghost var none, ks := multiset{}, if root[0].Node? then root[0].kids else [];
      OpenRoot();
      if |impl.blocks[id].seps| == 1 {
        impl.beginBlock := impl.blocks[id].seps[0].child;
        DropIndex(id, ks, height - 1, none, [], []);
        root, height := ks, height - 1;
      }
    }

    lemma OpenRoot()
      requires Valid() && root != [] && impl.IsIndex(root[0].id)
      ensures root[0].Node? && height > 0
      ensures var id, ks := root[0].id, root[0].kids;
        && root == [Node(id, ks)] && FlatF(root) == FlatF(ks)
        && impl.blocks[id] == Index(Seps(ks)) && 0 < |ks|
        && Ready(ks, height - 1, multiset{} + multiset{id}, [], [])
    {
      hide FreeList, Partition, Placed, Sorted;
      ReadyGives(root, height, multiset{}, [], []);
      assert Rep(impl.blocks, root[0]);
      var id, ks := root[0].id, root[0].kids;
      assert root == [Node(id, ks)];
      NodeParts(impl.blocks, id, ks, height, impl.Capacity());
      Single(Node(id, ks));
      ChildReady(id, ks, 0, |ks|, height - 1, multiset{}, [], []);
      WholeRest(id, ks);
    }

    // ---- look-ups and scans ----

    /** The leaves in key order. */
    ghost function Chained(): seq<nat>
      reads this
    {
      LeavesF(root)
    }

    lemma Readable()
      requires Valid()
      ensures Stored(impl.blocks, Chained()) == Pairs() && Chain(impl.blocks, Chained())
      ensures 0 !in Chained() && forall x :: x in Chained() ==> EntriesOf(impl.blocks, x) != []
      ensures root == [] <==> Chained() == []
    {
      hide FreeList, FlatF, IdsF, LeavesF, RepF, ShapeF, Chain, Sorted;
      StoredIsFlat(impl.blocks, root);
      LeavesHold(impl.blocks, root, height, impl.Capacity());
      impl.OwnedApart(IdsF(root), multiset{});
      LeavesAreIds(root);
      assert forall x :: x in Chained() ==> x in multiset(Chained());
      assert [] + LeavesF(root) + [] == LeavesF(root);
      RootLeaves();
    }

    lemma RootLeaves()
      requires |root| <= 1 && ShapeF(root, height, impl.Capacity())
      ensures root == [] <==> LeavesF(root) == []
    {
      if root != [] {
        NonEmpty(root[0], height, impl.Capacity());
      }
    }

    lemma CursorIs(j: nat)
      requires Valid() && j < |Chained()|
      ensures Cursor(impl.blocks, Chained(), j, Chained()[j]) && Chained()[j] != 0
    {
      hide Valid, Chain, Stored, Cursor;
      Readable();
      CursorAt(impl.blocks, Chained(), j);
    }

    /** The leaf where key belongs: every pair in an earlier leaf is below it, in a later leaf above. */
    method FindData(key: int) returns (id: nat, ghost j: nat)
      requires Valid()
      ensures id == 0 <==> root == []
      ensures id != 0 ==> Cursor(impl.blocks, Chained(), j, id) && Sorted(impl.blocks[id].entries)
      ensures id != 0 ==>
        && Below(Stored(impl.blocks, Chained()[..j]), key)
        && Above(Stored(impl.blocks, Chained()[j + 1..]), key)
    {
      hide Ready, Leads, OnPath, Stored, Below, Above, Sorted, Cursor, FlatF, LeavesF, Chain;
      RootIsNotZero();
      id, j := impl.beginBlock, 0;
      if id == 0 {
        return;
      }
      ghost var L, c, h := Chained(), impl.Capacity(), height;
      ghost var pre, cur, post := [], root[0], [];
      RootOnPath(key);
      if impl.blocks[id].Data? {
        Arrive(impl.blocks, L, pre, cur, post, h, c, key);
        CursorIs(0);
        return;
      }
      var block := id;
      var seps, i;
      while true
        invariant OnPath(impl.blocks, L, pre, cur, post, h, c, key)
        invariant block == cur.id && impl.IsIndex(block)
        decreases cur
      {
        PathNode(impl.blocks, L, pre, cur, post, h, c, key);
        seps := impl.blocks[block].seps;
        SepsSorted(cur.kids, h - 1, c);
        i := impl.IndexLowerBound(block, key);
        ChooseFind(cur.kids, i, key, h - 1, c);
        if i == |seps| || (i != 0 && seps[i].key > key) {
          i := i - 1;
        }
        id := seps[i].child;
        Descend(impl.blocks, L, pre, cur, post, h, c, key, i);
        h, pre, post := h - 1, pre + LeavesF(cur.kids[..i]), LeavesF(cur.kids[i + 1..]) + post;
        cur := cur.kids[i];
        PathStored(impl.blocks, L, pre, cur, post, h, c, key);
        if impl.blocks[id].Data? {
          break;
        }
        block := id;
      }
      if i == |seps| || (i != 0 && seps[i].key > key) {
        i := i - 1;
      }
      id := seps[i].child;
      j := |pre|;
      Arrive(impl.blocks, L, pre, cur, post, h, c, key);
      CursorIs(j);
    }

    lemma RootOnPath(key: int)
      requires Valid() && root != []
      ensures OnPath(impl.blocks, Chained(), [], root[0], [], height, impl.Capacity(), key)
      ensures root[0].id in impl.blocks && (root[0].Leaf? <==> impl.blocks[root[0].id].Data?)
      ensures !impl.blocks[root[0].id].Record?
    {
      hide FlatF, LeavesF, Stored, Sorted, FreeList;
      ReadyGives(root, height, multiset{}, [], []);
      assert root == [root[0]] && Rep(impl.blocks, root[0]) && Shape(root[0], height, impl.Capacity());
      Single(root[0]);
      StoredNothing(impl.blocks);
      assert [] + Leaves(root[0]) + [] == LeavesF(root);
    }

    method Find(key: int) returns (r: Option<V>)
      requires Valid()
      ensures r == Lookup(Pairs(), key)
    {
      hide Valid, Stored, Below, Above, HasKey, Sorted, Chain;
      Readable();
      NothingStored(key);
      ghost var j;
      var id;
      id, j := FindData(key);
      if id == 0 {
        return None;
      }
      RankInLeaf(impl.blocks, Chained(), j, key);
      var p := impl.DataLowerBound(id, key);
      var es := impl.blocks[id].entries;
      if p == |es| || es[p].key > key {
        LookupAt(es, key, p);
        return None;
      }
      LookupAt(es, key, p);
      At(impl.blocks, Chained(), j, p);
      return Some(es[p].value);
    }

    lemma NothingStored(key: int)
      requires Valid()
      ensures root == [] ==> Pairs() == [] && Lookup(Pairs(), key) == None
    {
      RootIsNotZero();
    }

    /** The cursor at slot p of leaf id, the j-th of the chain; n is that place in the whole sequence. */
    ghost predicate InLeaf(id: nat, p: nat, j: nat, n: nat)
      reads this, impl
    {
      && Cursor(impl.blocks, Chained(), j, id) && p <= |impl.blocks[id].entries|
      && n == Pos(impl.blocks, Chained(), j, p)
    }

    /** What a cursor sees on either side, and where a move takes it. */
    lemma Moves(id: nat, p: nat, j: nat, n: nat)
      requires Valid() && InLeaf(id, p, j, n)
      ensures impl.IsData(id) && p <= |impl.blocks[id].entries| && n <= |Pairs()|
      ensures p < |impl.blocks[id].entries| ==>
        n < |Pairs()| && Pairs()[n] == impl.blocks[id].entries[p] && InLeaf(id, p + 1, j, n + 1)
      ensures p > 0 ==> n > 0 && Pairs()[n - 1] == impl.blocks[id].entries[p - 1] && InLeaf(id, p - 1, j, n - 1)
      ensures impl.blocks[id].next == 0 && p == |impl.blocks[id].entries| ==> n == |Pairs()|
      ensures var next := impl.blocks[id].next; next != 0 ==> impl.IsData(next) && impl.blocks[next].entries != []
      ensures impl.blocks[id].next != 0 && p == |impl.blocks[id].entries| ==> InLeaf(impl.blocks[id].next, 0, j + 1, n)
      ensures impl.blocks[id].prev == 0 && p == 0 ==> n == 0
      ensures var prev := impl.blocks[id].prev;
        prev != 0 ==> j > 0 && impl.IsData(prev) && impl.blocks[prev].entries != []
      ensures impl.blocks[id].prev != 0 && p == 0 ==>
        InLeaf(impl.blocks[id].prev, |impl.blocks[impl.blocks[id].prev].entries|, j - 1, n)
    {
      hide Valid, Stored, Chain, Sorted;
      var b, L := impl.blocks, Chained();
      Readable();
      AtEnd(b, L, j);
      StoredNothing(b);
      assert L[..0] == [];
      if p < |b[id].entries| { At(b, L, j, p); }
      if p > 0 { At(b, L, j, p - 1); }
      if b[id].next != 0 {
        CursorIs(j + 1);
        StoredAround(b, L, j);
      }
      if b[id].prev != 0 {
        CursorIs(j - 1);
        StoredAround(b, L, j - 1);
      }
    }

    /** A cursor behind the last pair of its leaf goes on to the next leaf, if there is one. */
    method SkipEnd(id0: nat, p0: nat, ghost j0: nat, ghost n: nat) returns (id: nat, p: nat, ghost j: nat)
      requires Valid() && InLeaf(id0, p0, j0, n)
      ensures InLeaf(id, p, j, n) && impl.IsData(id) && p <= |impl.blocks[id].entries| && n <= |Pairs()|
      ensures p == |impl.blocks[id].entries| ==> n == |Pairs()|
      ensures p < |impl.blocks[id].entries| ==>
        n < |Pairs()| && Pairs()[n] == impl.blocks[id].entries[p] && InLeaf(id, p + 1, j, n + 1)
    {
      hide Valid, InLeaf;
      id, p, j := id0, p0, j0;
      Moves(id, p, j, n);
      if p == |impl.blocks[id].entries| && impl.blocks[id].next != 0 {
        id, p, j := impl.blocks[id].next, 0, j + 1;
        Moves(id, p, j, n);
      }
    }

    /** find_data, then the search inside the leaf. */
    method Seek(key: int) returns (id: nat, p: nat, ghost j: nat)
      requires Valid()
      ensures id == 0 <==> root == []
      ensures root == [] ==> Pairs() == []
      ensures id != 0 ==> InLeaf(id, p, j, Rank(Pairs(), key))
    {
      hide Valid, Stored, Below, Above, HasKey, Sorted, Chain;
      Readable();
      NothingStored(key);
      p := 0;
      id, j := FindData(key);
      if id == 0 {
        return;
      }
      RankInLeaf(impl.blocks, Chained(), j, key);
      p := impl.DataLowerBound(id, key);
    }

    method LowerBound(key: int) returns (r: Option<Entry<V>>)
      requires Valid()
      ensures var n := Rank(Pairs(), key); r == if n < |Pairs()| then Some(Pairs()[n]) else None
    {
      hide Valid, InLeaf;
      ghost var j: nat, n: nat := 0, Rank(Pairs(), key);
      var id: nat, p: nat;
      id, p, j := Seek(key);
      if id == 0 {
        return None;
      }
      Moves(id, p, j, n);
      if p == |impl.blocks[id].entries| {
        if impl.blocks[id].next == 0 {
          return None;
        }
        id, p, j := impl.blocks[id].next, 0, j + 1;
        Moves(id, p, j, n);
      }
      return Some(impl.blocks[id].entries[p]);
    }

    method UpperBound(key: int) returns (r: Option<Entry<V>>)
      requires Valid()
      ensures var n := Past(Pairs(), key); r == if n < |Pairs()| then Some(Pairs()[n]) else None
    {
      hide Valid, InLeaf, Past;
      ghost var j: nat, n: nat := 0, Rank(Pairs(), key);
      var id: nat, p: nat;
      id, p, j := Seek(key);
      if id == 0 {
        return None;
      }
      while true
        invariant InLeaf(id, p, j, n)
        invariant n <= |Pairs()| && forall i :: 0 <= i < n ==> Pairs()[i].key <= key
        decreases |Pairs()| - n
      {
        id, p, j := SkipEnd(id, p, j, n);
        if p == |impl.blocks[id].entries| {
          PastUnique(Pairs(), key, n);
          return None;
        }
        if impl.blocks[id].entries[p].key > key {
          break;
        }
        p, n := p + 1, n + 1;
      }
      PastUnique(Pairs(), key, n);
      r := Some(impl.blocks[id].entries[p]);
    }

    /** The pairs with begin <= key < end, in order, at most limit of them. */
    method FindRange(begin: int, end: int, limit: nat) returns (results: seq<Entry<V>>)
      requires Valid()
      ensures results == Limited(Between(Pairs(), begin, end), limit)
    {
      hide Valid, InLeaf, Rank, Limited, Sorted;
      results := [];
      if begin > end || begin == end {
        NoResults(Between(Pairs(), begin, end), limit);
        return;
      }
      ghost var all, from, to := Pairs(), Rank(Pairs(), begin), Rank(Pairs(), end);
      RankOrder(all, begin, end);
      ghost var j: nat, n: nat := 0, from;
      var id: nat, p: nat;
      id, p, j := Seek(begin);
      if id == 0 {
        NoResults(Between(Pairs(), begin, end), limit);
        return;
      }
      ValidSorted();
      n, results := CollectBelow(id, p, j, from, end, limit);
    }

    /** Copy pairs from a cursor on, until the limit, the end, or a key that is not below end. */
    method CollectBelow(id0: nat, p0: nat, ghost j0: nat, ghost from: nat, end: int, limit: nat)
      returns (ghost n: nat, results: seq<Entry<V>>)
      requires Valid() && InLeaf(id0, p0, j0, from) && Sorted(Pairs()) && from <= Rank(Pairs(), end)
      ensures results == Limited(Pairs()[from..Rank(Pairs(), end)], limit)
    {
      hide Valid, InLeaf, Rank, Limited, Sorted;
      ghost var all, to := Pairs(), Rank(Pairs(), end);
      var id: nat, p: nat, left: nat := id0, p0, limit;
      ghost var j: nat := j0;
      n, results := from, [];
      while left > 0
        invariant InLeaf(id, p, j, n) && from <= n <= to
        invariant results == all[from..n] && left + |results| == limit
        decreases left
      {
        id, p, j := SkipEnd(id, p, j, n);
        if p == |impl.blocks[id].entries| {
          break;
        }
        InsideIsBelow(all, end, n);
        if impl.blocks[id].entries[p].key < end {
          OneMore(all, from, n);
          results := results + [impl.blocks[id].entries[p]];
          p, n := p + 1, n + 1;
          left := left - 1;
        } else {
          break;
        }
      }
      Collected(all, from, n, to, limit);
    }

    lemma ValidSorted()
      requires Valid()
      ensures Sorted(Pairs())
    {
    }

    method AboveOrEqual(key: int, limit: nat) returns (results: seq<Entry<V>>)
      requires Valid()
      ensures results == Limited(Pairs()[Rank(Pairs(), key)..], limit)
    {
      hide Valid, InLeaf, Rank, Limited;
      results := [];
      ghost var all, from := Pairs(), Rank(Pairs(), key);
      ghost var j: nat, n: nat := 0, from;
      var id: nat, p: nat;
      id, p, j := Seek(key);
      if id == 0 {
        NoResults(all[from..], limit);
        return;
      }
      n, results := Collect(id, p, j, from, limit);
      assert all[from..|all|] == all[from..];
    }

    /** Copy pairs from a cursor on, through the leaves behind it, until the limit or the end. */
    method Collect(id0: nat, p0: nat, ghost j0: nat, ghost from: nat, limit: nat)
      returns (ghost n: nat, results: seq<Entry<V>>)
      requires Valid() && InLeaf(id0, p0, j0, from)
      ensures from <= |Pairs()| && results == Limited(Pairs()[from..|Pairs()|], limit)
    {
      hide Valid, InLeaf, Limited;
      ghost var all := Pairs();
      var id: nat, p: nat, left: nat := id0, p0, limit;
      ghost var j: nat := j0;
      n, results := from, [];
      Moves(id, p, j, n);
      while left > 0 && (p != |impl.blocks[id].entries| || impl.blocks[id].next != 0)
        invariant InLeaf(id, p, j, n) && impl.IsData(id) && from <= n <= |all|
        invariant results == all[from..n] && left + |results| == limit
        decreases left
      {
        Moves(id, p, j, n);
        if p == |impl.blocks[id].entries| {
          id, p, j := impl.blocks[id].next, 0, j + 1;
          Moves(id, p, j, n);
        }
        results := results + [impl.blocks[id].entries[p]];
        left := left - 1;
        p, n := p + 1, n + 1;
      }
      Moves(id, p, j, n);
      Collected(all, from, n, |all|, limit);
    }

    lemma RootBorder()
      requires Valid() && root != []
      ensures impl.beginBlock == root[0].id && Chained() == Leaves(root[0]) != []
      ensures root[0].id in impl.blocks && !impl.blocks[root[0].id].Record?
      ensures Border(impl.blocks, Chained()[0], root[0], height, impl.Capacity(), false)
      ensures Border(impl.blocks, Chained()[|Chained()| - 1], root[0], height, impl.Capacity(), true)
    {
      hide FlatF, LeavesF, Sorted, FreeList;
      ReadyGives(root, height, multiset{}, [], []);
      assert root == [root[0]] && Rep(impl.blocks, root[0]) && Shape(root[0], height, impl.Capacity());
      Single(root[0]);
      NonEmpty(root[0], height, impl.Capacity());
    }

    /** The cursors before the first pair and behind the last one. */
    lemma Edges()
      requires Valid() && root != []
      ensures Chained() != []
      ensures InLeaf(Chained()[0], 0, 0, 0)
      ensures |Chained()| == 1 ==> var x := Chained()[0];
        impl.IsData(x) && impl.blocks[x].next == 0 && impl.blocks[x].prev == 0
      ensures var j: nat := |Chained()| - 1; var x := Chained()[j];
        impl.IsData(x) && InLeaf(x, |impl.blocks[x].entries|, j, |Pairs()|)
    {
      hide Valid, Stored, Chain, Sorted, LeavesF;
      Readable();
      var j: nat := |Chained()| - 1;
      CursorIs(0);
      CursorIs(j);
      AtEnd(impl.blocks, Chained(), j);
      assert Chained()[..0] == [];
      StoredNothing(impl.blocks);
    }

    /** The whole tree in key order, at most limit pairs. */
    method SearchFromBegin(limit: nat) returns (results: seq<Entry<V>>)
      requires Valid()
      ensures results == Limited(Pairs(), limit)
    {
      hide Valid, InLeaf, Limited, Border, Cursor, Stored;
      ghost var all, n: nat := Pairs(), 0;
      assert all[0..|all|] == all;
      results := [];
      RootIsNotZero();
      if impl.beginBlock == 0 {
        NoResults(all, limit);
        return;
      }
      RootBorder();
      ghost var x, cur, h, c := Chained()[0], root[0], height, impl.Capacity();
      var id := impl.beginBlock;
      if impl.blocks[id].Data? {
        BorderLeaf(impl.blocks, x, cur, h, c, false);
        Edges();
        var p: nat, left: nat := 0, limit;
        while left > 0 && p != |impl.blocks[id].entries|
          invariant InLeaf(id, p, 0, n) && p <= |impl.blocks[id].entries| && n <= |all|
          invariant results == all[0..n] && left + |results| == limit
          decreases left
        {
          Moves(id, p, 0, n);
          results := results + [impl.blocks[id].entries[p]];
          left := left - 1;
          p, n := p + 1, n + 1;
        }
        Moves(id, p, 0, n);
        Collected(all, 0, n, |all|, limit);
        return;
      }
      BorderDown(impl.blocks, x, cur, h, c, false);
      id := impl.blocks[id].seps[0].child;
      cur, h := cur.kids[0], h - 1;
      while !impl.blocks[id].Data?
        invariant Border(impl.blocks, x, cur, h, c, false) && cur.id == id && id in impl.blocks
        invariant !impl.blocks[id].Record?
        decreases cur
      {
        BorderDown(impl.blocks, x, cur, h, c, false);
        id := impl.blocks[id].seps[0].child;
        cur, h := cur.kids[0], h - 1;
      }
      BorderLeaf(impl.blocks, x, cur, h, c, false);
      Edges();
      n, results := Collect(id, 0, 0, 0, limit);
    }

    /** The whole tree in reverse key order, at most limit pairs. */
    method SearchFromEnd(limit: nat) returns (results: seq<Entry<V>>)
      requires Valid()
      ensures results == Limited(Reversed(Pairs()), limit)
    {
      hide Valid, InLeaf, Limited, Reversed, Border, Cursor, Stored;
      ghost var all, n: nat := Pairs(), |Pairs()|;
      NoResults<Entry<V>>([], limit);
      assert all[n..] == [];
      results := [];
      RootIsNotZero();
      if impl.beginBlock == 0 {
        return;
      }
      RootBorder();
      ghost var x, cur, h, c := Chained()[|Chained()| - 1], root[0], height, impl.Capacity();
      var id := impl.beginBlock;
      var left: nat := limit;
      if impl.blocks[id].Data? {
        BorderLeaf(impl.blocks, x, cur, h, c, true);
        Edges();
        var p: nat := |impl.blocks[id].entries|;
        while left > 0 && p != 0
          invariant InLeaf(id, p, 0, n) && n <= |all|
          invariant results == Reversed(all[n..]) && left + |results| == limit
          decreases left
        {
          Moves(id, p, 0, n);
          OneBack(all, n);
          p, n := p - 1, n - 1;
          results := results + [impl.blocks[id].entries[p]];
          left := left - 1;
        }
        Moves(id, p, 0, n);
        CollectedBack(all, n, limit);
        return;
      }
      BorderDown(impl.blocks, x, cur, h, c, true);
      id := impl.blocks[id].seps[|impl.blocks[id].seps| - 1].child;
      cur, h := cur.kids[|cur.kids| - 1], h - 1;
      while !impl.blocks[id].Data?
        invariant Border(impl.blocks, x, cur, h, c, true) && cur.id == id && id in impl.blocks
        invariant !impl.blocks[id].Record?
        decreases cur
      {
        BorderDown(impl.blocks, x, cur, h, c, true);
        id := impl.blocks[id].seps[|impl.blocks[id].seps| - 1].child;
        cur, h := cur.kids[|cur.kids| - 1], h - 1;
      }
      BorderLeaf(impl.blocks, x, cur, h, c, true);
      Edges();
      var p: nat := |impl.blocks[id].entries|;
      ghost var j: nat := |Chained()| - 1;
      Moves(id, p, j, n);
      while left > 0 && (p != 0 || impl.blocks[id].prev != 0)
        invariant InLeaf(id, p, j, n) && impl.IsData(id) && n <= |all|
        invariant results == Reversed(all[n..]) && left + |results| == limit
        decreases left
      {
        Moves(id, p, j, n);
        if p == 0 {
          id, j := impl.blocks[id].prev, j - 1;
          p := |impl.blocks[id].entries|;
          Moves(id, p, j, n);
        }
        OneBack(all, n);
        p, n := p - 1, n - 1;
        results := results + [impl.blocks[id].entries[p]];
        left := left - 1;
      }
      Moves(id, p, j, n);
      CollectedBack(all, n, limit);
    }

    // ---- what the recursive operations rely on ----

    /** The forest ks is in the store, as part of a tree whose other blocks are others and whose
        other leaves are pre (to the left) and post (to the right). */
    ghost predicate Ready(ks: seq<Tree<V>>, h: nat, others: multiset<nat>, pre: seq<nat>, post: seq<nat>)
      reads impl
    {
      ReadyIn(impl.blocks, ks, h, others, pre, post)
    }

    ghost predicate ReadyIn(b: Store<V>, ks: seq<Tree<V>>, h: nat, others: multiset<nat>, pre: seq<nat>, post: seq<nat>)
      reads impl`total, impl`stack, impl`headSlots, impl`recordIndex, impl`deletedBlocks, impl`validBlocks
    {
      && impl.Capacity().data >= 1 && impl.Capacity().index >= 2
      && impl.OwnedIn(b, IdsF(ks) + others)
      && Placed(b, ks, h, impl.Capacity(), pre, post)
      && multiset(pre) + multiset(post) <= others
    }

    /** Nothing the forest depends on was touched. */
    lemma ReadyFrame(b: Store<V>, ks: seq<Tree<V>>, h: nat, others: multiset<nat>, pre: seq<nat>, post: seq<nat>)
      requires impl.Capacity().data >= 1 && impl.Capacity().index >= 2
      requires Placed(b, ks, h, impl.Capacity(), pre, post)
      requires impl.Owned(IdsF(ks) + others) && multiset(pre) + multiset(post) <= others
      requires forall x :: x in IdsF(ks) || x in pre || x in post ==>
        x in b && x in impl.blocks && impl.blocks[x] == b[x]
      ensures Ready(ks, h, others, pre, post)
    {
      RepFrameF(b, impl.blocks, ks);
      LeavesAreIds(ks);
      assert forall x :: x in LeavesF(ks) ==> x in multiset(LeavesF(ks));
      ChainFrame(b, impl.blocks, pre + LeavesF(ks) + post);
    }

    lemma OthersStay(ks: seq<Tree<V>>, h: nat, others: multiset<nat>, m: multiset<nat>, pre: seq<nat>, post: seq<nat>)
      requires Ready(ks, h, others + m, pre, post)
      ensures Keeps(impl.blocks, impl.blocks, others)
    {
      hide Placed, FreeList;
      impl.OwnedApart(IdsF(ks), others + m);
      assert forall x :: x in others ==> x in others + m;
    }

    /** Index blocks outside the forest were rewritten. */
    lemma WroteIndex(b: Store<V>, ks: seq<Tree<V>>, h: nat, others: multiset<nat>, pre: seq<nat>, post: seq<nat>,
                     m: multiset<nat>)
      requires ReadyIn(b, ks, h, others + m, pre, post) && multiset(pre) + multiset(post) <= others
      requires impl.blocks.Keys == b.Keys && forall x :: x in b && x !in m ==> impl.blocks[x] == b[x]
      ensures Ready(ks, h, others + m, pre, post) && Keeps(b, impl.blocks, others)
    {
      hide FreeList, Partition, Placed, Keeps, IdsF;
      var ids := IdsF(ks) + (others + m);
      assert ids == (IdsF(ks) + others) + m;
      Apart(IdsF(ks) + others, m, impl.stack, impl.total);
      impl.OwnedFrame(b, ids);
      assert forall x :: x in pre || x in post ==> x in multiset(pre) + multiset(post);
      assert forall x :: x in IdsF(ks) || x in others ==> x in IdsF(ks) + others;
      ReadyFrame(b, ks, h, others + m, pre, post);
      SameKeeps(b, impl.blocks, others);
    }

    /** An index block over a forest. */
    lemma NodeReady(id: nat, ks: seq<Tree<V>>, h: nat, others: multiset<nat>, pre: seq<nat>, post: seq<nat>)
      requires Ready(ks, h, others + multiset{id}, pre, post) && multiset(pre) + multiset(post) <= others
      requires id in impl.blocks && impl.blocks[id] == Index(Seps(ks)) && 0 < |ks| <= impl.Capacity().index
      ensures Ready([Node(id, ks)], h + 1, others, pre, post)
    {
      hide Placed, FreeList, Partition;
      NodePlaced(impl.blocks, id, ks, h, impl.Capacity(), others, pre, post);
    }

    /** Two index blocks sharing a forest. */
    lemma NodesReady(id: nat, a: seq<Tree<V>>, id': nat, d: seq<Tree<V>>, h: nat,
                     others: multiset<nat>, pre: seq<nat>, post: seq<nat>)
      requires Ready(a + d, h, others + multiset{id, id'}, pre, post) && multiset(pre) + multiset(post) <= others
      requires id in impl.blocks && impl.blocks[id] == Index(Seps(a)) && 0 < |a| <= impl.Capacity().index
      requires id' in impl.blocks && impl.blocks[id'] == Index(Seps(d)) && 0 < |d| <= impl.Capacity().index
      ensures Ready([Node(id, a), Node(id', d)], h + 1, others, pre, post)
    {
      hide Placed, FreeList, Partition;
      NodesPlaced(impl.blocks, id, a, id', d, h, impl.Capacity(), others, pre, post);
    }

    lemma ChildReady(id: nat, ks: seq<Tree<V>>, i: nat, j: nat, h: nat, others: multiset<nat>, pre: seq<nat>,
                     post: seq<nat>)
      requires Ready([Node(id, ks)], h + 1, others, pre, post) && i <= j <= |ks|
      ensures Ready(ks[i..j], h, Rest(id, ks, i, j, others), pre + LeavesF(ks[..i]), LeavesF(ks[j..]) + post)
    {
      hide Placed, FreeList, Partition, Rest;
      ChildPlaced(impl.blocks, id, ks, i, j, h, impl.Capacity(), others, pre, post);
      RestLinks(id, ks, i, j, others, pre, post);
    }

    /** After an operation on some children, the forest of all children is in place again. */
    lemma Regather(b: Store<V>, id: nat, ks: seq<Tree<V>>, i: nat, j: nat, rs: seq<Tree<V>>, h: nat,
                   others: multiset<nat>, pre: seq<nat>, post: seq<nat>)
      requires i <= j <= |ks| && multiset(pre) + multiset(post) <= others
      requires RepF(b, [Node(id, ks)]) && ShapeF([Node(id, ks)], h + 1, impl.Capacity())
      requires Ready(rs, h, Rest(id, ks, i, j, others), pre + LeavesF(ks[..i]), LeavesF(ks[j..]) + post)
      requires Keeps(b, impl.blocks, Rest(id, ks, i, j, others))
      ensures Ready(Replace(ks, i, j, rs), h, others + multiset{id}, pre, post) && ShapeF(rs, h, impl.Capacity())
      ensures id in impl.blocks && impl.blocks[id] == Index(Seps(ks))
      ensures Keeps(b, impl.blocks, others)
    {
      hide FreeList, Partition, RepF, ShapeF, Chain, Rest, Keeps, Replace;
      RegatherForest(b, impl.blocks, id, ks, i, j, rs, h, impl.Capacity(), others);
      RestIds(id, ks, i, j, rs, others);
      RestLeaves(ks, i, j, rs, pre, post);
    }

    lemma ReadyGives(ks: seq<Tree<V>>, h: nat, others: multiset<nat>, pre: seq<nat>, post: seq<nat>)
      requires Ready(ks, h, others, pre, post)
      ensures RepF(impl.blocks, ks) && ShapeF(ks, h, impl.Capacity()) && multiset(pre) + multiset(post) <= others
      ensures impl.Capacity().data >= 1 && impl.Capacity().index >= 2
    {
      hide FreeList, RepF, ShapeF, Chain;
    }

    lemma SplitBefore(bs: seq<Tree<V>>, ks: seq<Tree<V>>, h: nat, others: multiset<nat>, pre: seq<nat>, post: seq<nat>)
      requires Ready(bs + ks, h, others, pre, post)
      ensures Ready(ks, h, others + IdsF(bs), pre + LeavesF(bs), post)
      ensures RepF(impl.blocks, bs) && ShapeF(bs, h, impl.Capacity())
    {
      hide Placed, FreeList, Partition;
      BeforePlaced(impl.blocks, bs, ks, h, impl.Capacity(), others, pre, post);
    }

    lemma JoinBefore(bs: seq<Tree<V>>, ks: seq<Tree<V>>, h: nat, others: multiset<nat>, pre: seq<nat>, post: seq<nat>)
      requires Ready(ks, h, others + IdsF(bs), pre + LeavesF(bs), post) && multiset(pre) + multiset(post) <= others
      requires RepF(impl.blocks, bs) && ShapeF(bs, h, impl.Capacity())
      ensures Ready(bs + ks, h, others, pre, post)
    {
      hide Placed, FreeList, Partition;
      BeforePlaced(impl.blocks, bs, ks, h, impl.Capacity(), others, pre, post);
    }

    // ---- the operations as functions on trees ----

    /** A leaf that now holds the pairs all: cut in the middle if they are too many for one block. */
    ghost function LeafGrown(id: nat, all: seq<Entry<V>>, f: Free): (seq<Tree<V>>, Free) {
      if |all| <= impl.Capacity().data then ([Leaf(id, all)], f)
      else ([Leaf(id, all[..|all| / 2]), Leaf(NextOf(f), all[|all| / 2..])], Take(f))
    }

    /** Likewise for an index block. */
    ghost function NodeGrown(id: nat, all: seq<Tree<V>>, f: Free): (seq<Tree<V>>, Free) {
      if |all| <= impl.Capacity().index then ([Node(id, all)], f)
      else ([Node(id, all[..|all| / 2]), Node(NextOf(f), all[|all| / 2..])], Take(f))
    }

    /** The one or two trees that t becomes, and the block indices then not in use. */
    ghost function Insertion(t: Tree<V>, e: Entry<V>, f: Free): (seq<Tree<V>>, Free)
      decreases t
    {
      match t
      case Leaf(id, es) => LeafGrown(id, Put(es, e), f)
      case Node(id, ks) =>
        if ks == [] then ([t], f)
        else
          var i := Home(ks, e.key);
          var (kid, g) := Insertion(ks[i], e, f);
          NodeGrown(id, Replace(ks, i, i + 1, kid), g)
    }

    /** A block with nothing left in it is given back. */
    ghost function Settled(bs: seq<Tree<V>>, id: nat, ts: seq<Tree<V>>, f: Free): (seq<Tree<V>>, seq<Tree<V>>, Free) {
      (bs, ts, if ts == [] then Give(f, id) else f)
    }

    /** The pairs of a leaf and of the sibling before it, shared out anew. */
    ghost function LeavesShared(b: Tree<V>, id: nat, es: seq<Entry<V>>): (seq<Tree<V>>, seq<Tree<V>>) {
      var all, cut := Flat(b) + es, CutOf(|Flat(b)|, |es|, impl.dataPair, BLOCK_SIZE - DATA_BEGIN);
      ([Leaf(b.id, all[..cut])], if |all| <= impl.Capacity().data then [] else [Leaf(id, all[cut..])])
    }

    ghost function KidsOf(t: Tree<V>): seq<Tree<V>> {
      if t.Node? then t.kids else []
    }

    /** The children of an index block and of the sibling before it, shared out anew. */
    ghost function NodesSharedOut(b: Tree<V>, id: nat, ks: seq<Tree<V>>): (seq<Tree<V>>, seq<Tree<V>>) {
      var all, cut := KidsOf(b) + ks, CutOf(|KidsOf(b)|, |ks|, impl.indexPair, BLOCK_SIZE - INDEX_BEGIN);
      ([Node(b.id, all[..cut])], if |all| <= impl.Capacity().index then [] else [Node(id, all[cut..])])
    }

    /** What an erasure that left the pairs es in a leaf does with it: nothing while it is more than half full or
        has no sibling before it (but it goes when empty), else pairs are shared with the sibling. */
    ghost function LeafSettled(bs: seq<Tree<V>>, id: nat, es: seq<Entry<V>>, f: Free)
      : (seq<Tree<V>>, seq<Tree<V>>, Free)
    {
      if bs == [] || |es| * impl.dataPair > (BLOCK_SIZE - DATA_BEGIN) / 2 then
        Settled(bs, id, if es == [] then [] else [Leaf(id, es)], f)
      else
        var (left, right) := LeavesShared(bs[0], id, es);
        Settled(left, id, right, f)
    }

    /** Likewise for an index block that was left with the children ks, fewer than before or not. */
    ghost function NodeSettled(bs: seq<Tree<V>>, id: nat, ks: seq<Tree<V>>, fewer: bool, f: Free)
      : (seq<Tree<V>>, seq<Tree<V>>, Free)
    {
      if bs == [] || !fewer || |ks| * impl.indexPair > (BLOCK_SIZE - INDEX_BEGIN) / 2 then
        Settled(bs, id, if ks == [] then [] else [Node(id, ks)], f)
      else
        var (left, right) := NodesSharedOut(bs[0], id, ks);
        Settled(left, id, right, f)
    }

    /** What the sibling bs (if any) and t become without key, and the block indices then not in use. */
    ghost function Erasure(bs: seq<Tree<V>>, t: Tree<V>, key: int, f: Free): (seq<Tree<V>>, seq<Tree<V>>, Free)
      decreases t
    {
      match t
      case Leaf(id, es) => if HasKey(es, key) then LeafSettled(bs, id, Del(es, key), f) else (bs, [t], f)
      case Node(id, ks) =>
        if ks == [] then (bs, [t], f)
        else
          var i := Home(ks, key);
          var j := if i == 0 then 0 else i - 1;
          var (kb, kt, g) := Erasure(ks[j..i], ks[i], key, f);
          NodeSettled(bs, id, Replace(ks, j, i + 1, kb + kt), kt == [], g)
    }

    /** The same for the whole tree: a root that was cut gets a root above it. */
    ghost function InsertionAtRoot(r: seq<Tree<V>>, e: Entry<V>, f: Free): (seq<Tree<V>>, Free) {
      if r == [] then ([Leaf(NextOf(f), [e])], Take(f))
      else
        var (rs, g) := Insertion(r[0], e, f);
        if |rs| == 1 then (rs, g) else ([Node(NextOf(g), rs)], Take(g))
    }

    /** A root left with one child gives way to it. */
    ghost function ErasureAtRoot(r: seq<Tree<V>>, key: int, f: Free): (seq<Tree<V>>, Free)
      requires r != []
    {
      var (_, ts, g) := Erasure([], r[0], key, f);
      if ts != [] && |KidsOf(ts[0])| == 1 then (KidsOf(ts[0]), Give(g, ts[0].id)) else (ts, g)
    }

    /** Every block on the way to the leaf where key belongs is full. */
    ghost predicate FullPath(t: Tree<V>, key: int)
      decreases t
    {
      match t
      case Leaf(_, es) => |es| == impl.Capacity().data
      case Node(_, ks) => |ks| == impl.Capacity().index && ks != [] && FullPath(ks[Home(ks, key)], key)
    }

    /** A tree is cut in two, so that a level may be added above it, exactly when all these blocks are full. */
    lemma {:induction false} SplitsExactlyWhenFull(t: Tree<V>, h: nat, e: Entry<V>, f: Free)
      requires Shape(t, h, impl.Capacity())
      ensures |Insertion(t, e, f).0| == if FullPath(t, e.key) then 2 else 1
      decreases t
    {
      if t.Leaf? {
        InsertionOfLeaf(t, e, f);
      } else {
        var ks := t.kids;
        var i := Home(ks, e.key);
        assert Shape(ks[i], h - 1, impl.Capacity());
        SplitsExactlyWhenFull(ks[i], h - 1, e, f);
        var (kid, g) := Insertion(ks[i], e, f);
        InsertionOfNode(t.id, ks, i, e, f, kid, g);
        assert |Replace(ks, i, i + 1, kid)| == |ks| - 1 + |kid|;
      }
    }

    /** A leaf that loses a pair goes when it is empty and alone. With a sibling before it, it stays while more than
        half full; else the two become one if all pairs fit there, and otherwise share them evenly. */
    lemma LeafErasureMeans(b: Tree<V>, id: nat, es: seq<Entry<V>>, key: int, f: Free)
      requires b.Leaf? && |b.entries| <= impl.Capacity().data && |es| <= impl.Capacity().data && HasKey(es, key)
      ensures var rest := Del(es, key);
        Erasure([], Leaf(id, es), key, f) == if rest == [] then ([], [], Give(f, id)) else ([], [Leaf(id, rest)], f)
      ensures var rest := Del(es, key); var (bs, ts, g) := Erasure([b], Leaf(id, es), key, f);
        if |rest| * impl.dataPair > (BLOCK_SIZE - DATA_BEGIN) / 2 then bs == [b] && ts == [Leaf(id, rest)] && g == f
        else if |b.entries| + |rest| <= impl.Capacity().data then
          bs == [Leaf(b.id, b.entries + rest)] && ts == [] && g == Give(f, id)
        else
          && |bs| == |ts| == 1 && bs[0].Leaf? && ts[0].Leaf? && bs[0].id == b.id && ts[0].id == id && g == f
          && bs[0].entries + ts[0].entries == b.entries + rest
          && Balanced(|bs[0].entries|, |ts[0].entries|, impl.dataPair, BLOCK_SIZE - DATA_BEGIN)
    {
      hide CutOf, Balanced, Del, HasKey;
      DelLength(es, key);
      var all := b.entries + Del(es, key);
      CutIsFair(|b.entries|, |Del(es, key)|, impl.dataPair, BLOCK_SIZE - DATA_BEGIN);
      assert all[..|all|] == all;
    }

    lemma DelLength(es: seq<Entry<V>>, key: int)
      requires HasKey(es, key)
      ensures |Del(es, key)| == |es| - 1
    {
    }

    /** Likewise for an index block left with the children ks, if one of them went; else it stays. */
    lemma NodeErasureMeans(b: Tree<V>, id: nat, ks: seq<Tree<V>>, fewer: bool, f: Free)
      requires b.Node? && |b.kids| <= impl.Capacity().index && 0 < |ks| <= impl.Capacity().index
      ensures NodeSettled([], id, ks, fewer, f) == ([], [Node(id, ks)], f)
      ensures var (bs, ts, g) := NodeSettled([b], id, ks, fewer, f);
        if !fewer || |ks| * impl.indexPair > (BLOCK_SIZE - INDEX_BEGIN) / 2 then
          bs == [b] && ts == [Node(id, ks)] && g == f
        else if |b.kids| + |ks| <= impl.Capacity().index then
          bs == [Node(b.id, b.kids + ks)] && ts == [] && g == Give(f, id)
        else
          && |bs| == |ts| == 1 && bs[0].Node? && ts[0].Node? && bs[0].id == b.id && ts[0].id == id && g == f
          && bs[0].kids + ts[0].kids == b.kids + ks
          && Balanced(|bs[0].kids|, |ts[0].kids|, impl.indexPair, BLOCK_SIZE - INDEX_BEGIN)
    {
      hide CutOf, Balanced;
      var all := b.kids + ks;
      CutIsFair(|b.kids|, |ks|, impl.indexPair, BLOCK_SIZE - INDEX_BEGIN);
      assert all[..|all|] == all;
    }

    // ---- insert ----

    method InsertImpl(key: int, value: V, id: nat, ghost t: Tree<V>, ghost h: nat,
                      ghost others: multiset<nat>, ghost pre: seq<nat>, ghost post: seq<nat>)
      returns (ok: bool, link: Option<Sep>, ghost rs: seq<Tree<V>>)
      requires Ready([t], h, others, pre, post) && t.id == id && Sorted(Flat(t))
      modifies impl
      decreases t, 1
      ensures ok <==> !HasKey(Flat(t), key)
      ensures !ok ==> unchanged(impl) && link == None && rs == [t]
      ensures ok ==> Inserted(t, Entry(key, value), link, rs) && Ready(rs, h, others, pre, post)
      ensures ok ==> (rs, impl.Unused()) == Insertion(t, Entry(key, value), old(impl.Unused()))
      ensures ok ==> Keeps(old(impl.blocks), impl.blocks, others) && impl.beginBlock == old(impl.beginBlock)
    {
      hide Insertion;
      assert Rep(impl.blocks, [t][0]) && Shape([t][0], h, impl.Capacity());
      if impl.blocks[id].Data? {
        ok, link, rs := DataBlockInsert(key, value, id, t, h, others, pre, post);
      } else {
        ok, link, rs := IndexBlockInsert(key, value, id, t, h, others, pre, post);
      }
    }

    method DataBlockInsert(key: int, value: V, id: nat, ghost t: Tree<V>, ghost h: nat,
                           ghost others: multiset<nat>, ghost pre: seq<nat>, ghost post: seq<nat>)
      returns (ok: bool, link: Option<Sep>, ghost rs: seq<Tree<V>>)
      requires Ready([t], h, others, pre, post) && t.id == id && Sorted(Flat(t)) && t.Leaf?
      modifies impl
      decreases t, 0
      ensures ok <==> !HasKey(Flat(t), key)
      ensures !ok ==> unchanged(impl) && link == None && rs == [t]
      ensures ok ==> Inserted(t, Entry(key, value), link, rs) && Ready(rs, h, others, pre, post)
      ensures ok ==> (rs, impl.Unused()) == Insertion(t, Entry(key, value), old(impl.Unused()))
      ensures ok ==> Keeps(old(impl.blocks), impl.blocks, others) && impl.beginBlock == old(impl.beginBlock)
      ensures ok ==> (|rs| == 2 <==> |t.entries| == impl.Capacity().data)
    {
      hide Insertion, LeafGrown, Put, NextOf, Take, FreeList, Partition, Chain;
      InsertionOfLeaf(t, Entry(key, value), impl.Unused());
      assert Rep(impl.blocks, [t][0]) && Shape([t][0], h, impl.Capacity());
      var p := impl.DataLowerBound(id, key);
      if p != |impl.blocks[id].entries| && impl.blocks[id].entries[p].key == key {
        return false, None, [t];
      }
      ok := true;
      var fits := impl.DataCanInsert(id);
      if fits {
        link := None;
        rs := InsertHere(id, p, Entry(key, value), t, h, others, pre, post);
      } else {
        link, rs := SplitHere(id, Entry(key, value), t, h, others, pre, post);
      }
    }

    lemma InsertionOfLeaf(t: Tree<V>, e: Entry<V>, f: Free)
      requires t.Leaf?
      ensures var all, cut := Put(t.entries, e), (|t.entries| + 1) / 2;
        |all| == |t.entries| + 1 && Insertion(t, e, f) ==
          if |t.entries| + 1 <= impl.Capacity().data then ([Leaf(t.id, all)], f)
          else ([Leaf(t.id, all[..cut]), Leaf(NextOf(f), all[cut..])], Take(f))
    {
    }

    method InsertHere(id: nat, p: nat, e: Entry<V>, ghost t: Tree<V>, ghost h: nat,
                      ghost others: multiset<nat>, ghost pre: seq<nat>, ghost post: seq<nat>)
      returns (ghost rs: seq<Tree<V>>)
      requires Ready([t], h, others, pre, post) && t.Leaf? && t.id == id
      requires p == Rank(t.entries, e.key) && |t.entries| + 1 <= impl.Capacity().data
      modifies impl`blocks
      ensures Inserted(t, e, None, rs) && rs == [Leaf(id, Put(t.entries, e))] && Ready(rs, h, others, pre, post)
      ensures Keeps(old(impl.blocks), impl.blocks, others)
    {
      hide Chain, FreeList, Partition;
      rs := [Leaf(id, Put(t.entries, e))];
      Single(t);
      Single(rs[0]);
      assert Rep(impl.blocks, [t][0]) && Shape([t][0], h, impl.Capacity());
      impl.OwnedApart(multiset{id}, others);
      impl.DataInsert(id, p, e);
      impl.OwnedFrame(old(impl.blocks), multiset{id} + others);
      ChainKeep(old(impl.blocks), impl.blocks, pre + [id] + post);
      SinglePlaced(impl.blocks, rs[0], h, impl.Capacity(), pre, post);
    }

    method SplitHere(id: nat, e: Entry<V>, ghost t: Tree<V>, ghost h: nat,
                     ghost others: multiset<nat>, ghost pre: seq<nat>, ghost post: seq<nat>)
      returns (link: Option<Sep>, ghost rs: seq<Tree<V>>)
      requires Ready([t], h, others, pre, post) && t.Leaf? && t.id == id && Sorted(t.entries)
      requires |t.entries| == impl.Capacity().data
      modifies impl
      ensures Inserted(t, e, link, rs) && Ready(rs, h, others, pre, post)
      ensures var all, cut := Put(t.entries, e), (|t.entries| + 1) / 2;
        rs == [Leaf(id, all[..cut]), Leaf(NextOf(old(impl.Unused())), all[cut..])]
      ensures impl.Unused() == Take(old(impl.Unused()))
      ensures Keeps(old(impl.blocks), impl.blocks, others) && impl.beginBlock == old(impl.beginBlock)
    {
      hide Chain, NoDup, Put, Inserted, Sorted, FlatF, LeavesF, IdsF, Ready, RepF, ShapeF, Partition, FreeList, NextOf;
      ghost var b, ids := impl.blocks, multiset{id} + others;
      LeafReady(t, h, others, pre, post);
      var newId := impl.CreateBlock(Data(0, 0, []), ids);
      ghost var b' := impl.blocks;
      ChainFrame(b, b', pre + [id] + post);
      LinkSplit(id, newId, e, ids, pre, post);
      rs := SplitLeaf(t, e, newId, impl.Capacity());
      link := Some(Sep(impl.blocks[newId].entries[0].key, newId));
      PairReady(rs, others, pre, post);
      assert forall x :: x in others ==> x in ids && x != id && SameContent(b, b', x);
    }

    /** What a leaf in place gives an operation on its block. */
    lemma LeafReady(t: Tree<V>, h: nat, others: multiset<nat>, pre: seq<nat>, post: seq<nat>)
      requires Ready([t], h, others, pre, post) && t.Leaf?
      ensures h == 0 && Shape(t, 0, impl.Capacity()) && impl.IsData(t.id) && impl.blocks[t.id].entries == t.entries
      ensures impl.Capacity().data >= 1 && impl.Capacity().index >= 2 && multiset(pre) + multiset(post) <= others
      ensures impl.Owned(multiset{t.id} + others) && t.id !in others
      ensures Chain(impl.blocks, pre + [t.id] + post) && NoDup(pre + [t.id] + post)
      ensures forall x :: x in pre || x in post ==> x in others
    {
      hide Chain, FreeList, Partition, NoDup;
      Single(t);
      assert Rep(impl.blocks, [t][0]) && Shape([t][0], h, impl.Capacity());
      assert multiset{t.id} + others == others + multiset{t.id};
      impl.OwnedApart(others, multiset{t.id});
      LinkedAreOwned(others, t.id, pre, post);
    }

    lemma PairReady(rs: seq<Tree<V>>, others: multiset<nat>, pre: seq<nat>, post: seq<nat>)
      requires |rs| == 2 && rs[0].Leaf? && rs[1].Leaf? && ShapeF(rs, 0, impl.Capacity())
      requires impl.IsData(rs[0].id) && impl.blocks[rs[0].id].entries == rs[0].entries
      requires impl.IsData(rs[1].id) && impl.blocks[rs[1].id].entries == rs[1].entries
      requires impl.Owned(multiset{rs[0].id} + others + multiset{rs[1].id})
      requires Chain(impl.blocks, pre + [rs[0].id, rs[1].id] + post)
      requires impl.Capacity().data >= 1 && impl.Capacity().index >= 2 && multiset(pre) + multiset(post) <= others
      ensures Ready(rs, 0, others, pre, post)
    {
      hide Chain, FreeList, Partition;
      assert rs == [rs[0], rs[1]];
      assert Leaves(rs[0]) + Leaves(rs[1]) == [rs[0].id, rs[1].id];
      PairPlaced(impl.blocks, rs[0], rs[1], 0, impl.Capacity(), pre, post);
      Pair(rs[0], rs[1]);
      assert IdsF(rs) + others == multiset{rs[0].id} + others + multiset{rs[1].id};
    }

    method LinkSplit(id: nat, newId: nat, e: Entry<V>, ghost ids: multiset<nat>, ghost pre: seq<nat>,
                     ghost post: seq<nat>)
      requires impl.Owned(ids + multiset{newId}) && newId !in ids && id in ids
      requires impl.IsData(newId) && impl.blocks[newId].entries == []
      requires Chain(impl.blocks, pre + [id] + post) && NoDup(pre + [id] + post)
      requires impl.IsData(id) && Sorted(impl.blocks[id].entries)
      requires forall x :: x in pre || x in post ==> x in ids
      modifies impl`blocks
      ensures impl.Owned(ids + multiset{newId}) && Chain(impl.blocks, pre + [id, newId] + post)
      ensures var es := old(impl.blocks)[id].entries;
        var all, cut := Put(es, e), (|es| + 1) / 2;
        && impl.IsData(id) && impl.blocks[id].entries == all[..cut]
        && impl.IsData(newId) && impl.blocks[newId].entries == all[cut..]
      ensures forall x :: x in ids && x != id ==> SameContent(old(impl.blocks), impl.blocks, x)
    {
      hide Chain, NoDup, Sorted, Put, FreeList, Partition;
      impl.OwnedApart(ids, multiset{newId});
      Neighbours(impl.blocks, pre, id, post);
      MiddleIsApart(pre, id, post);
      assert post != [] ==> First(post) in post;
      impl.DataSplit(id, newId, e);
      impl.OwnedFrame(old(impl.blocks), ids + multiset{newId});
      ChainInsert(old(impl.blocks), impl.blocks, pre, id, newId, post);
    }

    method IndexBlockInsert(key: int, value: V, id: nat, ghost t: Tree<V>, ghost h: nat,
                            ghost others: multiset<nat>, ghost pre: seq<nat>, ghost post: seq<nat>)
      returns (ok: bool, link: Option<Sep>, ghost rs: seq<Tree<V>>)
      requires Ready([t], h, others, pre, post) && t.id == id && Sorted(Flat(t)) && t.Node?
      modifies impl
      decreases t, 0
      ensures ok <==> !HasKey(Flat(t), key)
      ensures !ok ==> unchanged(impl) && link == None && rs == [t]
      ensures ok ==> Inserted(t, Entry(key, value), link, rs) && Ready(rs, h, others, pre, post)
      ensures ok ==> (rs, impl.Unused()) == Insertion(t, Entry(key, value), old(impl.Unused()))
      ensures ok ==> Keeps(old(impl.blocks), impl.blocks, others) && impl.beginBlock == old(impl.beginBlock)
    {
      hide Insertion, NodeGrown;
      hide Put, FlatF, LeavesF, IdsF, Sorted, HasKey, Seps, FreeList, Partition, Placed, Chain, Rest, Below, Above;
      hide Keeps, Replace, RepF, ShapeF;
      hide Ready;
      ghost var ks, c := t.kids, impl.Capacity();
      ReadyGives([t], h, others, pre, post);
      NodeParts(impl.blocks, id, ks, h, c);
      var found, needUpdate, i := SearchInsert(key, id, ks, h - 1);
      if found {
        return false, None, [t];
      }
      ChildReady(id, ks, i, i + 1, h - 1, others, pre, post);
      assert ks[i..i + 1] == [ks[i]];
      ghost var kid;
      ok, link, kid :=
        InsertImpl(key, value, impl.blocks[id].seps[i].child, ks[i], h - 1, Rest(id, ks, i, i + 1, others),
                                  pre + LeavesF(ks[..i]), LeavesF(ks[i + 1..]) + post);
      if ok {
        Regather(old(impl.blocks), id, ks, i, i + 1, kid, h - 1, others, pre, post);
        ghost var b := impl.blocks;
        InsertionOfNode(id, ks, i, Entry(key, value), old(impl.Unused()), kid, impl.Unused());
        link, rs := AfterChild(key, id, i, needUpdate, link, Entry(key, value), ks, kid, h - 1, others, pre, post);
        KeepsTrans(old(impl.blocks), b, impl.blocks, others);
      } else {
        rs := [t];
      }
    }

    lemma InsertionOfNode(id: nat, ks: seq<Tree<V>>, i: nat, e: Entry<V>, f: Free, kid: seq<Tree<V>>, g: Free)
      requires ks != [] && i == Home(ks, e.key) && (kid, g) == Insertion(ks[i], e, f)
      ensures Insertion(Node(id, ks), e, f) == NodeGrown(id, Replace(ks, i, i + 1, kid), g)
    {
    }

    /** The child a new key goes to, unless the key is one of the separators (and so present). */
    method SearchInsert(key: int, id: nat, ghost ks: seq<Tree<V>>, ghost h: nat)
      returns (found: bool, needUpdate: bool, i: nat)
      requires impl.IsIndex(id) && impl.blocks[id].seps == Seps(ks) && ks != []
      requires ShapeF(ks, h, impl.Capacity()) && Sorted(FlatF(ks))
      ensures found ==> HasKey(FlatF(ks), key)
      ensures needUpdate <==> key < MinKey(ks[0])
      ensures !found ==> Belongs(ks, i, key) && (i == 0 || !needUpdate) && (i > 0 ==> MinKey(ks[i]) < key)
      ensures !found ==> i == Home(ks, key)
    {
      hide FlatF, Sorted, HasKey, Below, Above;
      SepsSorted(ks, h, impl.Capacity());
      var seps := impl.blocks[id].seps;
      needUpdate := key < seps[0].key;
      i := impl.IndexLowerBound(id, key);
      found := i != |seps| && seps[i].key == key;
      if found {
        FoundInSeps(ks, i, h, impl.Capacity(), key);
        return;
      }
      ChooseChild(ks, i, key, h, impl.Capacity());
      if i != 0 {
        i := i - 1;
      }
    }

    /** index_block_insert after the recursive call: the least key may have become smaller, and the child may have
        split. */
    method AfterChild(key: int, id: nat, i: nat, needUpdate: bool, childLink: Option<Sep>, ghost e: Entry<V>,
                      ghost ks: seq<Tree<V>>, ghost kid: seq<Tree<V>>, ghost h: nat,
                      ghost others: multiset<nat>, ghost pre: seq<nat>, ghost post: seq<nat>)
      returns (link: Option<Sep>, ghost rs: seq<Tree<V>>)
      requires i < |ks| <= impl.Capacity().index && e.key == key
      requires Ready(Replace(ks, i, i + 1, kid), h, others + multiset{id}, pre, post)
      requires multiset(pre) + multiset(post) <= others
      requires impl.IsIndex(id) && impl.blocks[id].seps == Seps(ks)
      requires ShapeF(ks, h, impl.Capacity()) && ShapeF(kid, h, impl.Capacity())
      requires Sorted(FlatF(ks)) && !HasKey(FlatF(ks), key) && Inserted(ks[i], e, childLink, kid)
      requires Below(FlatF(ks[..i]), key) && Above(FlatF(ks[i + 1..]), key)
      requires needUpdate <==> key < MinKey(ks[0])
      requires i == 0 || !needUpdate
      requires i > 0 ==> MinKey(ks[i]) < key
      modifies impl
      ensures Inserted(Node(id, ks), e, link, rs) && Ready(rs, h + 1, others, pre, post)
      ensures (rs, impl.Unused()) == NodeGrown(id, Replace(ks, i, i + 1, kid), old(impl.Unused()))
      ensures Keeps(old(impl.blocks), impl.blocks, others) && impl.beginBlock == old(impl.beginBlock)
    {
      hide FlatF, IdsF, LeavesF, Put, Below, Above, HasKey, Sorted, Seps, Replace, ReadyIn, ShapeF, Keeps, SameContent;
      ghost var all := Replace(ks, i, i + 1, kid);
      ChildReplaced(ks, i, kid, e, h, impl.Capacity());
      OthersStay(all, h, others, multiset{id}, pre, post);
      if needUpdate {
        UpdateSep(id, i, key, all, h, others, pre, post);
      }
      assert impl.blocks[id].seps == Seps(ks)[i := SepOf(kid[0])];
      if childLink.Some? {
        ghost var b := impl.blocks;
        link, rs := AddLink(id, i + 1, childLink.value, all, h, others, pre, post);
        KeepsTrans(old(impl.blocks), b, impl.blocks, others);
      } else {
        link, rs := None, [Node(id, all)];
        Single(rs[0]);
        NodeReady(id, all, h, others, pre, post);
      }
    }

    method UpdateSep(id: nat, i: nat, key: int, ghost ks: seq<Tree<V>>, ghost h: nat,
                     ghost others: multiset<nat>, ghost pre: seq<nat>, ghost post: seq<nat>)
      requires Ready(ks, h, others + multiset{id}, pre, post) && multiset(pre) + multiset(post) <= others
      requires impl.IsIndex(id) && i < |impl.blocks[id].seps|
      modifies impl`blocks
      ensures Ready(ks, h, others + multiset{id}, pre, post) && Keeps(old(impl.blocks), impl.blocks, others)
      ensures var seps := old(impl.blocks)[id].seps;
        id in impl.blocks && impl.blocks[id] == Index(seps[i := Sep(key, seps[i].child)])
    {
      impl.IndexUpdate(id, i, key);
      WroteIndex(old(impl.blocks), ks, h, others, pre, post, multiset{id});
    }

    /** Take in the second tree a child was split into: one more separator, or a split of this block. */
    method AddLink(id: nat, i: nat, sep: Sep, ghost ks: seq<Tree<V>>, ghost h: nat,
                   ghost others: multiset<nat>, ghost pre: seq<nat>, ghost post: seq<nat>)
      returns (link: Option<Sep>, ghost rs: seq<Tree<V>>)
      requires Ready(ks, h, others + multiset{id}, pre, post) && multiset(pre) + multiset(post) <= others
      requires impl.IsIndex(id) && i <= |impl.blocks[id].seps| && Seps(ks) == InsertAt(impl.blocks[id].seps, i, sep)
      requires 0 < |impl.blocks[id].seps| <= impl.Capacity().index && Sorted(FlatF(ks))
      modifies impl
      ensures Ready(rs, h + 1, others, pre, post) && FlatF(rs) == FlatF(ks)
      ensures 1 <= |rs| <= 2 && rs[0].id == id && link == if |rs| == 2 then Some(SepOf(rs[1])) else None
      ensures (rs, impl.Unused()) == NodeGrown(id, ks, old(impl.Unused()))
      ensures Keeps(old(impl.blocks), impl.blocks, others) && impl.beginBlock == old(impl.beginBlock)
    {
      var fits := impl.IndexCanInsert(id);
      if fits {
        impl.IndexInsert(id, i, sep);
        WroteIndex(old(impl.blocks), ks, h, others, pre, post, multiset{id});
        NodeReady(id, ks, h, others, pre, post);
        link, rs := None, [Node(id, ks)];
        Single(rs[0]);
      } else {
        link, rs := SplitIndex(id, i, sep, ks, h, others, pre, post);
      }
    }

    method SplitIndex(id: nat, ghost i: nat, sep: Sep, ghost ks: seq<Tree<V>>, ghost h: nat,
                      ghost others: multiset<nat>, ghost pre: seq<nat>, ghost post: seq<nat>)
      returns (link: Option<Sep>, ghost rs: seq<Tree<V>>)
      requires Ready(ks, h, others + multiset{id}, pre, post) && multiset(pre) + multiset(post) <= others
      requires impl.IsIndex(id) && i <= |impl.blocks[id].seps| && Seps(ks) == InsertAt(impl.blocks[id].seps, i, sep)
      requires |impl.blocks[id].seps| == impl.Capacity().index && Sorted(FlatF(ks))
      modifies impl
      ensures Ready(rs, h + 1, others, pre, post) && FlatF(rs) == FlatF(ks)
      ensures rs == [Node(id, ks[..|ks| / 2]), Node(NextOf(old(impl.Unused())), ks[|ks| / 2..])]
      ensures impl.Unused() == Take(old(impl.Unused()))
      ensures link == Some(SepOf(rs[1]))
      ensures Keeps(old(impl.blocks), impl.blocks, others) && impl.beginBlock == old(impl.beginBlock)
    {
      hide ReadyIn, FlatF, IdsF, LeavesF, ShapeF, Seps, Keeps, InsertAt, NextOf, Take;
      ReadyGives(ks, h, others + multiset{id}, pre, post);
      SepsSorted(ks, h, impl.Capacity());
      SepPlace(impl.blocks[id].seps, i, sep);
      var newId := AllocIndex(id, ks, h, others, pre, post);
      ghost var b := impl.blocks;
      ghost var p := impl.IndexSplit(id, newId, sep);
      ghost var cut := |ks| / 2;
      WroteIndex(b, ks, h, others, pre, post, multiset{id, newId});
      assert ks[..cut] + ks[cut..] == ks;
      SepsCut(ks, cut);
      NodesReady(id, ks[..cut], newId, ks[cut..], h, others, pre, post);
      rs := [Node(id, ks[..cut]), Node(newId, ks[cut..])];
      Pair(rs[0], rs[1]);
      Concat(ks[..cut], ks[cut..]);
      ShapeParts(ks[..cut], ks[cut..], h, impl.Capacity());
      FirstKey(ks[cut..], h, impl.Capacity());
      link := Some(Sep(impl.blocks[newId].seps[0].key, newId));
      KeepsTrans(old(impl.blocks), b, impl.blocks, others);
    }

    method AllocIndex(id: nat, ghost ks: seq<Tree<V>>, ghost h: nat,
                      ghost others: multiset<nat>, ghost pre: seq<nat>, ghost post: seq<nat>)
      returns (newId: nat)
      requires Ready(ks, h, others + multiset{id}, pre, post) && impl.IsIndex(id)
      modifies impl
      ensures Ready(ks, h, others + multiset{id, newId}, pre, post) && newId != id
      ensures impl.IsIndex(newId) && impl.blocks[newId].seps == [] && impl.IsIndex(id)
      ensures impl.blocks[id] == old(impl.blocks)[id]
      ensures newId == NextOf(old(impl.Unused())) && impl.Unused() == Take(old(impl.Unused()))
      ensures Keeps(old(impl.blocks), impl.blocks, others) && impl.beginBlock == old(impl.beginBlock)
    {
      hide FreeList, Partition, Placed, IdsF, LeavesF, Keeps;
      ghost var was := others + multiset{id};
      newId := impl.CreateBlock(Index([]), IdsF(ks) + was);
      Created(old(impl.blocks), ks, h, was, pre, post, newId);
      assert was + multiset{newId} == others + multiset{id, newId};
      assert id in was;
      KeepsPart(old(impl.blocks), impl.blocks, others, multiset{id});
    }

    lemma Created(b: Store<V>, ks: seq<Tree<V>>, h: nat, others: multiset<nat>, pre: seq<nat>, post: seq<nat>,
                  newId: nat)
      requires impl.Capacity().data >= 1 && impl.Capacity().index >= 2
      requires Placed(b, ks, h, impl.Capacity(), pre, post) && multiset(pre) + multiset(post) <= others
      requires impl.Owned(IdsF(ks) + others + multiset{newId})
      requires forall x :: x in IdsF(ks) + others ==> x in b && x in impl.blocks && impl.blocks[x] == b[x]
      ensures Ready(ks, h, others + multiset{newId}, pre, post)
      ensures Keeps(b, impl.blocks, others) && forall x :: x in others ==> impl.blocks[x] == b[x]
    {
      hide FreeList, Partition, Placed;
      assert IdsF(ks) + others + multiset{newId} == IdsF(ks) + (others + multiset{newId});
      assert forall x :: x in pre || x in post ==> x in multiset(pre) + multiset(post);
      assert forall x :: x in IdsF(ks) || x in others ==> x in IdsF(ks) + others;
      ReadyFrame(b, ks, h, others + multiset{newId}, pre, post);
    }

    // ---- erase ----

    method EraseImpl(key: int, before: nat, id: nat, ghost bs: seq<Tree<V>>, ghost t: Tree<V>, ghost h: nat,
                     ghost others: multiset<nat>, ghost pre: seq<nat>, ghost post: seq<nat>)
      returns (ok: bool, res: Option<Sep>, ghost bs': seq<Tree<V>>, ghost ts': seq<Tree<V>>)
      requires Ready(bs + [t], h, others, pre, post) && t.id == id && Sorted(Flat(t))
      requires |bs| <= 1 && before == (if bs == [] then 0 else bs[0].id)
      modifies impl
      decreases t, 1
      ensures ok <==> HasKey(Flat(t), key)
      ensures !ok ==> unchanged(impl) && res == Some(SepOf(t)) && bs' == bs && ts' == [t]
      ensures ok ==> Erased(bs, t, key, res, bs', ts') && Ready(bs' + ts', h, others, pre, post)
      ensures ok ==> (bs', ts', impl.Unused()) == Erasure(bs, t, key, old(impl.Unused()))
      ensures ok ==> Keeps(old(impl.blocks), impl.blocks, others) && impl.beginBlock == old(impl.beginBlock)
    {
      hide Erasure;
      SplitBefore(bs, [t], h, others, pre, post);
      assert Rep(impl.blocks, [t][0]) && Shape([t][0], h, impl.Capacity());
      if impl.blocks[id].Data? {
        ok, res, bs', ts' := DataBlockErase(key, before, id, bs, t, others, pre, post);
      } else {
        ok, res, bs', ts' := IndexBlockErase(key, before, id, bs, t, h, others, pre, post);
      }
    }

    /** Like Ready(bs + [leaf]), but the leaf may be empty. */
    ghost predicate Loose(bs: seq<Tree<V>>, id: nat, es: seq<Entry<V>>, others: multiset<nat>, pre: seq<nat>,
                          post: seq<nat>)
      reads impl
    {
      LooseIn(impl.blocks, bs, id, es, others, pre, post)
    }

    ghost predicate LooseIn(b: Store<V>, bs: seq<Tree<V>>, id: nat, es: seq<Entry<V>>,
                            others: multiset<nat>, pre: seq<nat>, post: seq<nat>)
      reads impl`total, impl`stack, impl`headSlots, impl`recordIndex, impl`deletedBlocks, impl`validBlocks
    {
      && impl.Capacity().data >= 1 && impl.Capacity().index >= 2 && |es| <= impl.Capacity().data
      && impl.OwnedIn(b, IdsF(bs) + others + multiset{id})
      && RepF(b, bs) && ShapeF(bs, 0, impl.Capacity())
      && id in b && b[id].Data? && b[id].entries == es
      && Chain(b, (pre + LeavesF(bs)) + [id] + post)
      && multiset(pre) + multiset(post) <= others
    }

    lemma Tight(bs: seq<Tree<V>>, id: nat, es: seq<Entry<V>>, others: multiset<nat>, pre: seq<nat>, post: seq<nat>)
      requires Loose(bs, id, es, others, pre, post) && es != []
      ensures Ready(bs + [Leaf(id, es)], 0, others, pre, post)
    {
      hide FreeList, Partition, Chain;
      Single(Leaf(id, es));
      SinglePlaced(impl.blocks, Leaf(id, es), 0, impl.Capacity(), pre + LeavesF(bs), post);
      assert IdsF([Leaf(id, es)]) + (others + IdsF(bs)) == IdsF(bs) + others + multiset{id};
      BeforePlaced(impl.blocks, bs, [Leaf(id, es)], 0, impl.Capacity(), others, pre, post);
    }

    lemma Loosen(bs: seq<Tree<V>>, id: nat, es: seq<Entry<V>>, others: multiset<nat>, pre: seq<nat>, post: seq<nat>)
      requires Ready(bs + [Leaf(id, es)], 0, others, pre, post)
      ensures Loose(bs, id, es, others, pre, post) && es != []
    {
      hide FreeList, Partition;
      Single(Leaf(id, es));
      SplitBefore(bs, [Leaf(id, es)], 0, others, pre, post);
      assert Rep(impl.blocks, [Leaf(id, es)][0]) && Shape([Leaf(id, es)][0], 0, impl.Capacity());
      assert IdsF([Leaf(id, es)]) + (others + IdsF(bs)) == IdsF(bs) + others + multiset{id};
    }

    /** The pairs of the leaf and of the sibling before it were rewritten, nothing else. */
    lemma Rewritten(b: Store<V>, bs: seq<Tree<V>>, bs': seq<Tree<V>>, id: nat, es: seq<Entry<V>>, es': seq<Entry<V>>,
                    others: multiset<nat>, pre: seq<nat>, post: seq<nat>)
      requires LooseIn(b, bs, id, es, others, pre, post) && |es'| <= impl.Capacity().data
      requires IdsF(bs') == IdsF(bs) && LeavesF(bs') == LeavesF(bs)
      requires RepF(impl.blocks, bs') && ShapeF(bs', 0, impl.Capacity())
      requires impl.IsData(id) && impl.blocks[id].entries == es'
      requires SameLinks(b, impl.blocks, IdsF(bs) + multiset{id})
      ensures Loose(bs', id, es', others, pre, post) && Keeps(b, impl.blocks, others)
    {
      hide FreeList, Partition, Chain, RepF, ShapeF, IdsF, LeavesF;
      var mine := IdsF(bs) + multiset{id};
      assert IdsF(bs) + others + multiset{id} == others + mine;
      Apart(others, mine, impl.stack, impl.total);
      impl.OwnedFrame(b, others + mine);
      ChainKeep(b, impl.blocks, (pre + LeavesF(bs)) + [id] + post);
    }

    /** Two neighbouring leaves exchanged pairs. */
    lemma RewrittenPair(b: Store<V>, before: nat, bes: seq<Entry<V>>, bes': seq<Entry<V>>, id: nat, es: seq<Entry<V>>,
                        es': seq<Entry<V>>,
                        others: multiset<nat>, pre: seq<nat>, post: seq<nat>)
      requires LooseIn(b, [Leaf(before, bes)], id, es, others, pre, post) && |es'| <= impl.Capacity().data
      requires before in b && b[before].Data? && id in b && b[id].Data? && before != id
      requires impl.blocks == b[before := b[before].(entries := bes')][id := b[id].(entries := es')]
      requires 0 < |bes'| <= impl.Capacity().data
      ensures Loose([Leaf(before, bes')], id, es', others, pre, post) && Keeps(b, impl.blocks, others)
    {
      hide Loose, LooseIn, Keeps, LeavesF, IdsF, FlatF;
      Single(Leaf(before, bes));
      Single(Leaf(before, bes'));
      Rewritten(b, [Leaf(before, bes)], [Leaf(before, bes')], id, es, es', others, pre, post);
    }

    lemma LoosePair(bs: seq<Tree<V>>, id: nat, es: seq<Entry<V>>, others: multiset<nat>, pre: seq<nat>, post: seq<nat>)
      requires Loose(bs, id, es, others, pre, post) && |bs| == 1
      ensures bs[0].Leaf? && bs == [Leaf(bs[0].id, bs[0].entries)] && 0 < |bs[0].entries| <= impl.Capacity().data
      ensures impl.IsData(bs[0].id) && impl.blocks[bs[0].id].entries == bs[0].entries && bs[0].id != id
      ensures impl.IsData(id) && impl.blocks[id].entries == es && |es| <= impl.Capacity().data
      ensures Keeps(impl.blocks, impl.blocks, others)
    {
      hide FreeList, Chain, LeavesF;
      assert Rep(impl.blocks, bs[0]) && Shape(bs[0], 0, impl.Capacity());
      LooseLeaf(bs, id, es, others, pre, post);
      impl.OwnedApart(IdsF(bs) + others, multiset{id});
      assert bs[0].id in IdsF(bs) + others by { assert IdsF(bs)[bs[0].id] > 0; }
    }

    method DataBlockErase(key: int, before: nat, id: nat, ghost bs: seq<Tree<V>>, ghost t: Tree<V>,
                          ghost others: multiset<nat>, ghost pre: seq<nat>, ghost post: seq<nat>)
      returns (ok: bool, res: Option<Sep>, ghost bs': seq<Tree<V>>, ghost ts': seq<Tree<V>>)
      requires Ready(bs + [t], 0, others, pre, post) && t.Leaf? && t.id == id && Sorted(Flat(t))
      requires |bs| <= 1 && before == (if bs == [] then 0 else bs[0].id)
      modifies impl
      decreases t, 0
      ensures ok <==> HasKey(Flat(t), key)
      ensures !ok ==> unchanged(impl) && res == Some(SepOf(t)) && bs' == bs && ts' == [t]
      ensures ok ==> Erased(bs, t, key, res, bs', ts') && Ready(bs' + ts', 0, others, pre, post)
      ensures ok ==> (bs', ts', impl.Unused()) == Erasure(bs, t, key, old(impl.Unused()))
      ensures ok ==> Keeps(old(impl.blocks), impl.blocks, others) && impl.beginBlock == old(impl.beginBlock)
    {
      hide Ready, Loose, Keeps, Rank, Del, LeavesShared;
      Loosen(bs, id, t.entries, others, pre, post);
      LooseLeaf(bs, id, t.entries, others, pre, post);
      var p := impl.DataLowerBound(id, key);
      if p == |impl.blocks[id].entries| || impl.blocks[id].entries[p].key != key {
        return false, Some(Sep(impl.blocks[id].entries[0].key, id)), bs, [t];
      }
      ok := true;
      SiblingLeafIsNotZero(bs, id, t.entries, others, pre, post);
      var keep := TakeOut(id, p, bs, t, key, others, pre, post);
      ghost var b := impl.blocks;
      LooseLeaf(bs, id, Del(t.entries, key), others, pre, post);
      if keep || before == 0 {
        if |impl.blocks[id].entries| == 0 {
          DropLeaf(id, bs, [], others, pre, post);
          res, bs', ts' := None, bs, [];
          assert bs' + ts' == bs';
        } else {
          res := Some(Sep(impl.blocks[id].entries[0].key, id));
          bs', ts' := bs, [Leaf(id, Del(t.entries, key))];
          Tight(bs, id, Del(t.entries, key), others, pre, post);
        }
        LeafErased(bs, t, key, res, ts');
      } else {
        res, bs', ts' := RebalanceLeaf(before, id, bs, t, key, others, pre, post);
      }
      KeepsTrans(old(impl.blocks), b, impl.blocks, others);
    }

    lemma SiblingLeafIsNotZero(bs: seq<Tree<V>>, id: nat, es: seq<Entry<V>>, others: multiset<nat>, pre: seq<nat>,
                               post: seq<nat>)
      requires Loose(bs, id, es, others, pre, post)
      ensures bs != [] ==> bs[0].id != 0
    {
      hide FreeList, Chain, RepF, ShapeF;
      impl.OwnedApart(IdsF(bs) + others, multiset{id});
      if bs != [] {
        assert bs[0].id in Ids(bs[0]);
        assert bs[0].id in IdsF(bs);
        assert bs[0].id in IdsF(bs) + others;
      }
    }

    lemma LooseLeaf(bs: seq<Tree<V>>, id: nat, es: seq<Entry<V>>, others: multiset<nat>, pre: seq<nat>, post: seq<nat>)
      requires Loose(bs, id, es, others, pre, post)
      ensures impl.IsData(id) && impl.blocks[id].entries == es && Keeps(impl.blocks, impl.blocks, others)
    {
      hide FreeList, Chain;
      impl.OwnedApart(IdsF(bs) + others, multiset{id});
    }

    method TakeOut(id: nat, p: nat, ghost bs: seq<Tree<V>>, ghost t: Tree<V>, ghost key: int,
                   ghost others: multiset<nat>, ghost pre: seq<nat>, ghost post: seq<nat>)
      returns (keep: bool)
      requires t.Leaf? && t.id == id && Loose(bs, id, t.entries, others, pre, post)
      requires HasKey(t.entries, key) && p == Rank(t.entries, key)
      modifies impl`blocks
      ensures Loose(bs, id, Del(t.entries, key), others, pre, post) && Keeps(old(impl.blocks), impl.blocks, others)
      ensures keep ==> Del(t.entries, key) != []
      ensures keep <==> |Del(t.entries, key)| * impl.dataPair > (BLOCK_SIZE - DATA_BEGIN) / 2
    {
      hide LooseIn, Rank, RepF, ShapeF, IdsF, LeavesF, Keeps;
      ghost var b := impl.blocks;
      LooseLeaf(bs, id, t.entries, others, pre, post);
      keep := impl.DataErase(id, p);
      LooseForest(b, bs, id, t.entries, others, pre, post);
      Rewritten(b, bs, bs, id, t.entries, Del(t.entries, key), others, pre, post);
    }

    /** Writing to the leaf leaves the sibling alone. */
    lemma LooseForest(b: Store<V>, bs: seq<Tree<V>>, id: nat, es: seq<Entry<V>>, others: multiset<nat>, pre: seq<nat>,
                      post: seq<nat>)
      requires LooseIn(b, bs, id, es, others, pre, post)
      requires impl.blocks.Keys == b.Keys && forall x :: x in b && x != id ==> impl.blocks[x] == b[x]
      ensures RepF(impl.blocks, bs) && ShapeF(bs, 0, impl.Capacity()) && |es| <= impl.Capacity().data
    {
      hide FreeList, Chain, RepF, ShapeF, IdsF, LeavesF, Partition;
      Apart(IdsF(bs) + others, multiset{id}, impl.stack, impl.total);
      assert forall x :: x in IdsF(bs) ==> x in IdsF(bs) + others;
      KeptForest(b, bs);
    }

    method DropLeaf(id: nat, ghost bs: seq<Tree<V>>, ghost es: seq<Entry<V>>,
                    ghost others: multiset<nat>, ghost pre: seq<nat>, ghost post: seq<nat>)
      requires Loose(bs, id, es, others, pre, post)
      modifies impl
      ensures Ready(bs, 0, others, pre, post) && impl.beginBlock == old(impl.beginBlock)
      ensures Keeps(old(impl.blocks), impl.blocks, others) && impl.Unused() == Give(old(impl.Unused()), id)
    {
      hide FreeList, Chain, Partition, RepF, ShapeF, IdsF, LeavesF, Keeps;
      ghost var b := impl.blocks;
      LinksOf(bs, others, pre, post);
      assert IdsF(bs) + others == others + IdsF(bs);
      impl.EraseBlock(id, IdsF(bs) + others, pre + LeavesF(bs), post);
      KeepsPart(b, impl.blocks, others, IdsF(bs));
      KeptForest(b, bs);
      assert pre + LeavesF(bs) + post == (pre + LeavesF(bs)) + post;
    }

    method RebalanceLeaf(before: nat, id: nat, ghost bs: seq<Tree<V>>, ghost t: Tree<V>, ghost key: int,
                         ghost others: multiset<nat>, ghost pre: seq<nat>, ghost post: seq<nat>)
      returns (res: Option<Sep>, ghost bs': seq<Tree<V>>, ghost ts': seq<Tree<V>>)
      requires t.Leaf? && t.id == id && HasKey(t.entries, key) && |bs| == 1 && before == bs[0].id
      requires Loose(bs, id, Del(t.entries, key), others, pre, post)
      modifies impl
      ensures Erased(bs, t, key, res, bs', ts') && Ready(bs' + ts', 0, others, pre, post)
      ensures (bs', ts') == LeavesShared(bs[0], id, Del(t.entries, key))
      ensures impl.Unused() == if ts' == [] then Give(old(impl.Unused()), id) else old(impl.Unused())
      ensures Keeps(old(impl.blocks), impl.blocks, others) && impl.beginBlock == old(impl.beginBlock)
    {
      hide LooseIn, Keeps, Rank, Del, HasKey, Sorted, Ready, Erased, LeavesF, IdsF, FlatF, Near;
      ghost var b, es := impl.blocks, Del(t.entries, key);
      LoosePair(bs, id, es, others, pre, post);
      ghost var bes := bs[0].entries;
      var choose := impl.DataChoose(before, id);
      if choose > 0 {
        impl.DataMerge(before, id);
        RewrittenPair(b, before, bes, bes + es, id, es, [], others, pre, post);
        bs', ts' := [Leaf(before, bes + es)], [];
        LeafRebalanced(bs, t, key, bes + es, []);
        ghost var b' := impl.blocks;
        DropLeaf(id, bs', [], others, pre, post);
        KeepsTrans(b, b', impl.blocks, others);
        assert bs' + ts' == bs';
        return None, bs', ts';
      }
      ghost var left, right := bes, es;
      if choose < 0 {
        impl.DataAverage(before, id);
        ghost var cut := AverageCut(|bes|, |es|);
        left, right := (bes + es)[..cut], (bes + es)[cut..];
        RewrittenPair(b, before, bes, left, id, es, right, others, pre, post);
      }
      bs', ts' := [Leaf(before, left)], [Leaf(id, right)];
      LeafRebalanced(bs, t, key, left, right);
      LooseLeaf(bs', id, right, others, pre, post);
      Tight(bs', id, right, others, pre, post);
      res := Some(Sep(impl.blocks[id].entries[0].key, id));
    }

    method IndexBlockErase(key: int, before: nat, id: nat, ghost bs: seq<Tree<V>>, ghost t: Tree<V>, ghost h: nat,
                           ghost others: multiset<nat>, ghost pre: seq<nat>, ghost post: seq<nat>)
      returns (ok: bool, res: Option<Sep>, ghost bs': seq<Tree<V>>, ghost ts': seq<Tree<V>>)
      requires Ready(bs + [t], h, others, pre, post) && t.Node? && t.id == id && Sorted(Flat(t))
      requires |bs| <= 1 && before == (if bs == [] then 0 else bs[0].id)
      modifies impl
      decreases t, 0
      ensures ok <==> HasKey(Flat(t), key)
      ensures !ok ==> unchanged(impl) && res == Some(SepOf(t)) && bs' == bs && ts' == [t]
      ensures ok ==> Erased(bs, t, key, res, bs', ts') && Ready(bs' + ts', h, others, pre, post)
      ensures ok ==> (bs', ts', impl.Unused()) == Erasure(bs, t, key, old(impl.Unused()))
      ensures ok ==> Keeps(old(impl.blocks), impl.blocks, others) && impl.beginBlock == old(impl.beginBlock)
    {
      hide FreeList, Partition, Placed, Chain, Rank, Del, FlatF, LeavesF, IdsF, Sorted, HasKey, Seps, Keeps, RepF;
      hide ShapeF, Below, Above, Rest, Replace;
      hide Ready, Behind, MinKey, Erased, Erasure, NodeSettled;
      ghost var ks, others1, pre1 := t.kids, others + IdsF(bs), pre + LeavesF(bs);
      OpenErase(bs, t, h, others, pre, post);
      var outside, i := SearchErase(key, id, ks, h - 1);
      if outside {
        return false, Some(Sep(impl.blocks[id].seps[0].key, id)), bs, [t];
      }
      var beforeChild := if i != 0 then impl.blocks[id].seps[i - 1].child else 0;
      ghost var j := if i != 0 then i - 1 else 0;
      ChildReady(id, ks, j, i + 1, h - 1, others1, pre1, post);
      assert ks[j..i + 1] == ks[j..i] + [ks[i]];
      var childRes;
      ghost var kb, kt;
      ok, childRes, kb, kt := EraseImpl(key, beforeChild, impl.blocks[id].seps[i].child, ks[j..i], ks[i], h - 1,
                                        Rest(id, ks, j, i + 1, others1), pre1 + LeavesF(ks[..j]),
                                        LeavesF(ks[i + 1..]) + post);
      if !ok {
        return false, Some(Sep(impl.blocks[id].seps[0].key, id)), bs, [t];
      }
      CloseErase(old(impl.blocks), bs, id, ks, j, i + 1, kb + kt, h - 1, others, pre, post);
      ghost var b := impl.blocks;
      ErasureOfNode(bs, id, ks, i, key, old(impl.Unused()), kb, kt, impl.Unused());
      res, bs', ts' := AfterErase(key, before, id, i, childRes, bs, ks, kb, kt, h - 1, others, pre, post);
      KeepsTrans(old(impl.blocks), b, impl.blocks, others);
    }

    lemma ErasureOfNode(bs: seq<Tree<V>>, id: nat, ks: seq<Tree<V>>, i: nat, key: int, f: Free, kb: seq<Tree<V>>,
                        kt: seq<Tree<V>>, g: Free)
      requires ks != [] && i == Home(ks, key)
      requires (kb, kt, g) == Erasure(ks[if i == 0 then 0 else i - 1..i], ks[i], key, f)
      ensures Erasure(bs, Node(id, ks), key, f) ==
        NodeSettled(bs, id, Replace(ks, if i == 0 then 0 else i - 1, i + 1, kb + kt), kt == [], g)
    {
    }

    lemma OpenErase(bs: seq<Tree<V>>, t: Tree<V>, h: nat, others: multiset<nat>, pre: seq<nat>, post: seq<nat>)
      requires Ready(bs + [t], h, others, pre, post) && t.Node?
      ensures h > 0 && Ready([t], h, others + IdsF(bs), pre + LeavesF(bs), post)
      ensures RepF(impl.blocks, bs) && ShapeF(bs, h, impl.Capacity()) && multiset(pre) + multiset(post) <= others
      ensures RepF(impl.blocks, [t]) && ShapeF([t], h, impl.Capacity())
      ensures impl.IsIndex(t.id) && impl.blocks[t.id] == Index(Seps(t.kids))
      ensures 0 < |t.kids| <= impl.Capacity().index && ShapeF(t.kids, h - 1, impl.Capacity())
      ensures SepOf(t) == Sep(impl.blocks[t.id].seps[0].key, t.id)
    {
      hide FreeList, Partition, Placed, RepF, ShapeF, IdsF, LeavesF, Ready, FlatF;
      ReadyGives(bs + [t], h, others, pre, post);
      SplitBefore(bs, [t], h, others, pre, post);
      ReadyGives([t], h, others + IdsF(bs), pre + LeavesF(bs), post);
      assert [t] == [Node(t.id, t.kids)];
      NodeParts(impl.blocks, t.id, t.kids, h, impl.Capacity());
      FirstKey(t.kids, h - 1, impl.Capacity());
    }

    lemma CloseErase(b: Store<V>, bs: seq<Tree<V>>, id: nat, ks: seq<Tree<V>>, j: nat, i: nat, rs: seq<Tree<V>>, h: nat,
                     others: multiset<nat>, pre: seq<nat>, post: seq<nat>)
      requires j <= i <= |ks| && multiset(pre) + multiset(post) <= others
      requires RepF(b, [Node(id, ks)]) && ShapeF([Node(id, ks)], h + 1, impl.Capacity())
      requires RepF(b, bs) && ShapeF(bs, h + 1, impl.Capacity())
      requires Ready(rs, h, Rest(id, ks, j, i, others + IdsF(bs)), pre + LeavesF(bs) + LeavesF(ks[..j]),
        LeavesF(ks[i..]) + post)
      requires Keeps(b, impl.blocks, Rest(id, ks, j, i, others + IdsF(bs)))
      ensures Behind(bs, Replace(ks, j, i, rs), id, h, others, pre, post) && Keeps(b, impl.blocks, others)
      ensures id in impl.blocks && impl.blocks[id] == Index(Seps(ks))
    {
      hide Keeps, RepF, ShapeF, Rest, Replace, IdsF, LeavesF, FreeList, Placed, Partition;
      LinksOf(bs, others, pre, post);
      Regather(b, id, ks, j, i, rs, h, others + IdsF(bs), pre + LeavesF(bs), post);
      assert ReadyIn(impl.blocks, Replace(ks, j, i, rs), h, (others + IdsF(bs)) + multiset{id}, pre + LeavesF(bs),
        post);
      KeepsPart(b, impl.blocks, others, IdsF(bs));
      KeptForest(b, bs);
    }

    lemma LinksOf(bs: seq<Tree<V>>, others: multiset<nat>, pre: seq<nat>, post: seq<nat>)
      requires multiset(pre) + multiset(post) <= others
      ensures multiset(pre + LeavesF(bs)) + multiset(post) <= others + IdsF(bs)
    {
      LeavesAreIds(bs);
    }

    lemma KeptForest(b: Store<V>, bs: seq<Tree<V>>)
      requires RepF(b, bs) && Keeps(b, impl.blocks, IdsF(bs))
      ensures RepF(impl.blocks, bs)
    {
      hide RepF;
      RepFrameF(b, impl.blocks, bs);
    }

    /** The child that may hold the key, unless the key is below the least one. */
    method SearchErase(key: int, id: nat, ghost ks: seq<Tree<V>>, ghost h: nat) returns (outside: bool, i: nat)
      requires impl.IsIndex(id) && impl.blocks[id].seps == Seps(ks) && ks != []
      requires ShapeF(ks, h, impl.Capacity()) && Sorted(FlatF(ks))
      ensures outside ==> !HasKey(FlatF(ks), key)
      ensures !outside ==> Belongs(ks, i, key) && i == Home(ks, key)
    {
      hide FlatF, Sorted, HasKey, Below, Above;
      SepsSorted(ks, h, impl.Capacity());
      var seps := impl.blocks[id].seps;
      i := impl.IndexLowerBound(id, key);
      outside := i == 0 && seps[i].key > key;
      if outside {
        BelowAll(ks, h, impl.Capacity(), key);
        return;
      }
      ChooseErase(ks, i, key, h, impl.Capacity());
      if i == |seps| || seps[i].key > key {
        i := i - 1;
      }
    }

    method AfterErase(key: int, before: nat, id: nat, i: nat, childRes: Option<Sep>,
                      ghost bs: seq<Tree<V>>, ghost ks: seq<Tree<V>>, ghost kb: seq<Tree<V>>, ghost kt: seq<Tree<V>>,
                      ghost h: nat, ghost others: multiset<nat>, ghost pre: seq<nat>, ghost post: seq<nat>)
      returns (res: Option<Sep>, ghost bs': seq<Tree<V>>, ghost ts': seq<Tree<V>>)
      requires i < |ks| <= impl.Capacity().index && multiset(pre) + multiset(post) <= others
      requires Erased(ks[(if i == 0 then 0 else i - 1)..i], ks[i], key, childRes, kb, kt)
      requires Below(FlatF(ks[..i]), key) && Above(FlatF(ks[i + 1..]), key)
      requires impl.IsIndex(id) && impl.blocks[id].seps == Seps(ks)
      requires Behind(bs, Replace(ks, if i == 0 then 0 else i - 1, i + 1, kb + kt), id, h, others, pre, post)
      requires |bs| <= 1 && before == (if bs == [] then 0 else bs[0].id)
      modifies impl
      ensures Erased(bs, Node(id, ks), key, res, bs', ts') && Ready(bs' + ts', h + 1, others, pre, post)
      ensures (bs', ts', impl.Unused()) == NodeSettled(bs, id, Replace(ks, if i == 0 then 0 else i - 1, i + 1, kb + kt),
                                                       kt == [], old(impl.Unused()))
      ensures Keeps(old(impl.blocks), impl.blocks, others) && impl.beginBlock == old(impl.beginBlock)
    {
      hide FreeList, Partition, Placed, Chain, Rank, Del, FlatF, LeavesF, IdsF, HasKey, Seps, Keeps, RepF, ShapeF;
      hide Below, Above, Replace, NodesSharedOut;
      ghost var all := Replace(ks, if i == 0 then 0 else i - 1, i + 1, kb + kt);
      KidErased(ks, i, key, childRes, kb, kt);
      SiblingIsNotZero(bs, all, id, h, others, pre, post);
      PlacedIs(impl.blocks, all, h, impl.Capacity(), pre + LeavesF(bs), post);
      NodeErased(bs, id, ks, all, key, h, impl.Capacity());
      if childRes.Some? {
        if impl.blocks[id].seps[i].key != childRes.value.key {
          impl.IndexUpdate(id, i, childRes.value.key);
        }
        WroteBehind(old(impl.blocks), bs, all, id, h, others, pre, post);
        res := Some(Sep(impl.blocks[id].seps[0].key, id));
        bs', ts' := bs, [Node(id, all)];
        NodeBehind(bs, all, id, h, others, pre, post);
        return;
      }
      var keep := impl.IndexErase(id, i);
      WroteBehind(old(impl.blocks), bs, all, id, h, others, pre, post);
      ghost var b := impl.blocks;
      if keep || before == 0 {
        if |impl.blocks[id].seps| == 0 {
          assert all == [] && bs == [];
          DropEmptyIndex(id, h, others, pre, post);
          KeepsTrans(old(impl.blocks), b, impl.blocks, others);
          res, bs', ts' := None, bs, [];
        } else {
          res := Some(Sep(impl.blocks[id].seps[0].key, id));
          bs', ts' := bs, [Node(id, all)];
          NodeBehind(bs, all, id, h, others, pre, post);
        }
      } else {
        res, bs', ts' := RebalanceIndex(before, id, bs, all, h, others, pre, post);
        SharedErased(bs, id, ks, all, key, res, bs', ts');
        KeepsTrans(old(impl.blocks), b, impl.blocks, others);
      }
    }

    /** The forest ks lies behind the tree in bs; block id is an index block still to be settled. */
    ghost predicate Behind(bs: seq<Tree<V>>, ks: seq<Tree<V>>, id: nat, h: nat, others: multiset<nat>, pre: seq<nat>,
                           post: seq<nat>)
      reads impl
    {
      BehindIn(impl.blocks, bs, ks, id, h, others, pre, post)
    }

    ghost predicate BehindIn(b: Store<V>, bs: seq<Tree<V>>, ks: seq<Tree<V>>, id: nat, h: nat,
                             others: multiset<nat>, pre: seq<nat>, post: seq<nat>)
      reads impl`total, impl`stack, impl`headSlots, impl`recordIndex, impl`deletedBlocks, impl`validBlocks
    {
      && ReadyIn(b, ks, h, (others + IdsF(bs)) + multiset{id}, pre + LeavesF(bs), post)
      && RepF(b, bs) && ShapeF(bs, h + 1, impl.Capacity())
      && multiset(pre) + multiset(post) <= others
    }

    lemma SiblingIsNotZero(bs: seq<Tree<V>>, ks: seq<Tree<V>>, id: nat, h: nat, others: multiset<nat>, pre: seq<nat>,
                           post: seq<nat>)
      requires Behind(bs, ks, id, h, others, pre, post)
      ensures bs != [] ==> bs[0].id != 0
    {
      hide FreeList, Placed, RepF, ShapeF;
      var rest := (others + IdsF(bs)) + multiset{id};
      impl.OwnedApart(IdsF(ks), rest);
      if bs != [] {
        assert bs[0].id in Ids(bs[0]);
        assert bs[0].id in IdsF(bs);
        assert bs[0].id in rest;
      }
    }

    lemma WroteBehind(b: Store<V>, bs: seq<Tree<V>>, ks: seq<Tree<V>>, id: nat, h: nat,
                      others: multiset<nat>, pre: seq<nat>, post: seq<nat>)
      requires BehindIn(b, bs, ks, id, h, others, pre, post)
      requires impl.blocks.Keys == b.Keys && forall x :: x in b && x != id ==> impl.blocks[x] == b[x]
      ensures Behind(bs, ks, id, h, others, pre, post) && Keeps(b, impl.blocks, others)
    {
      hide FreeList, Partition, Placed, Chain, FlatF, LeavesF, IdsF, RepF, ShapeF;
      LeavesAreIds(bs);
      assert multiset(pre + LeavesF(bs)) == multiset(pre) + multiset(LeavesF(bs));
      WroteIndex(b, ks, h, others + IdsF(bs), pre + LeavesF(bs), post, multiset{id});
      KeepsPart(b, impl.blocks, others, IdsF(bs));
      RepFrameF(b, impl.blocks, bs);
    }

    lemma NodeBehind(bs: seq<Tree<V>>, ks: seq<Tree<V>>, id: nat, h: nat, others: multiset<nat>, pre: seq<nat>,
                     post: seq<nat>)
      requires Behind(bs, ks, id, h, others, pre, post)
      requires id in impl.blocks && impl.blocks[id] == Index(Seps(ks)) && 0 < |ks| <= impl.Capacity().index
      ensures Ready(bs + [Node(id, ks)], h + 1, others, pre, post)
    {
      hide FreeList, Partition, Placed, Chain, FlatF, LeavesF, IdsF, RepF, ShapeF, Seps;
      LeavesAreIds(bs);
      assert multiset(pre + LeavesF(bs)) == multiset(pre) + multiset(LeavesF(bs));
      NodeReady(id, ks, h, others + IdsF(bs), pre + LeavesF(bs), post);
      JoinBefore(bs, [Node(id, ks)], h + 1, others, pre, post);
    }

    method DropIndex(id: nat, ghost ks: seq<Tree<V>>, ghost h: nat, ghost others: multiset<nat>, ghost pre: seq<nat>,
                     ghost post: seq<nat>)
      requires Ready(ks, h, others + multiset{id}, pre, post) && impl.IsIndex(id)
      requires multiset(pre) + multiset(post) <= others
      modifies impl
      ensures Ready(ks, h, others, pre, post) && impl.beginBlock == old(impl.beginBlock)
      ensures Keeps(old(impl.blocks), impl.blocks, IdsF(ks) + others)
      ensures impl.Unused() == Give(old(impl.Unused()), id)
    {
      hide FreeList, Partition, Chain, FlatF, LeavesF, IdsF, RepF, ShapeF;
      ghost var ids, all := IdsF(ks) + others, pre + LeavesF(ks) + post;
      LeavesAreIds(ks);
      assert multiset(all) == multiset(pre) + multiset(LeavesF(ks)) + multiset(post);
      assert ids + multiset{id} == IdsF(ks) + (others + multiset{id});
      assert all + [] == all;
      impl.EraseBlock(id, ids, all, []);
      KeepsPart(old(impl.blocks), impl.blocks, IdsF(ks), others);
      RepFrameF(old(impl.blocks), impl.blocks, ks);
    }

    method DropEmptyIndex(id: nat, ghost h: nat, ghost others: multiset<nat>, ghost pre: seq<nat>, ghost post: seq<nat>)
      requires Behind([], [], id, h, others, pre, post) && impl.IsIndex(id)
      modifies impl
      ensures Ready([], h + 1, others, pre, post) && impl.beginBlock == old(impl.beginBlock)
      ensures Keeps(old(impl.blocks), impl.blocks, others) && impl.Unused() == Give(old(impl.Unused()), id)
    {
      hide FreeList, Partition, Chain, Keeps;
      ghost var none: seq<Tree<V>> := [];
      assert others + IdsF(none) == others && pre + LeavesF(none) == pre;
      DropIndex(id, none, h, others, pre, post);
      KeepsPart(old(impl.blocks), impl.blocks, IdsF(none), others);
    }

    /** Both index blocks and all their children, in one forest. */
    lemma OpenBoth(bs: seq<Tree<V>>, ks: seq<Tree<V>>, id: nat, h: nat, others: multiset<nat>, pre: seq<nat>,
                   post: seq<nat>)
      returns (bks: seq<Tree<V>>)
      requires Behind(bs, ks, id, h, others, pre, post) && |bs| == 1
      ensures bs == [Node(bs[0].id, bks)] && 0 < |bks| <= impl.Capacity().index
      ensures Ready(bks + ks, h, others + multiset{bs[0].id, id}, pre, post)
      ensures bs[0].id in impl.blocks && impl.blocks[bs[0].id] == Index(Seps(bks)) && bs[0].id != id
    {
      hide FreeList, Partition, Chain, FlatF, LeavesF, IdsF, Placed, RepF, ShapeF, Seps;
      bks := SiblingIsNode(bs, h);
      var before := bs[0].id;
      BeforePlaced(impl.blocks, bks, ks, h, impl.Capacity(), others + multiset{before, id}, pre, post);
      OpenIds(IdsF(ks), others, IdsF(bks), before, id);
      impl.OwnedApart(IdsF(ks) + others + IdsF(bks), multiset{before, id});
      assert multiset{before, id}[id] == 1;
    }

    lemma SiblingIsNode(bs: seq<Tree<V>>, h: nat) returns (bks: seq<Tree<V>>)
      requires |bs| == 1 && RepF(impl.blocks, bs) && ShapeF(bs, h + 1, impl.Capacity())
      ensures bs == [Node(bs[0].id, bks)] && 0 < |bks| <= impl.Capacity().index
      ensures RepF(impl.blocks, bks) && ShapeF(bks, h, impl.Capacity())
      ensures bs[0].id in impl.blocks && impl.blocks[bs[0].id] == Index(Seps(bks))
      ensures IdsF(bs) == multiset{bs[0].id} + IdsF(bks) && LeavesF(bs) == LeavesF(bks)
    {
      hide FlatF;
      assert Rep(impl.blocks, bs[0]) && Shape(bs[0], h + 1, impl.Capacity());
      bks := bs[0].kids;
      assert bs == [bs[0]];
      NodeParts(impl.blocks, bs[0].id, bks, h + 1, impl.Capacity());
      Single(bs[0]);
    }

    method RebalanceIndex(before: nat, id: nat, ghost bs: seq<Tree<V>>, ghost ks: seq<Tree<V>>, ghost h: nat,
                          ghost others: multiset<nat>, ghost pre: seq<nat>, ghost post: seq<nat>)
      returns (res: Option<Sep>, ghost bs': seq<Tree<V>>, ghost ts': seq<Tree<V>>)
      requires Behind(bs, ks, id, h, others, pre, post)
      requires id in impl.blocks && impl.blocks[id] == Index(Seps(ks)) && |ks| <= impl.Capacity().index
      requires |bs| == 1 && before == bs[0].id
      modifies impl
      ensures Ready(bs' + ts', h + 1, others, pre, post) && impl.beginBlock == old(impl.beginBlock)
      ensures Shared(bs, ks, id, res, bs', ts')
      ensures (bs', ts') == NodesSharedOut(bs[0], id, ks)
      ensures impl.Unused() == if ts' == [] then Give(old(impl.Unused()), id) else old(impl.Unused())
      ensures Keeps(old(impl.blocks), impl.blocks, others)
    {
      hide ReadyIn, FlatF, LeavesF, IdsF, ShapeF, Keeps, Seps, Shared, Near, NodesSharedOut;
      ghost var bks := OpenBoth(bs, ks, id, h, others, pre, post);
      NodesSharedAt(bs[0], id, ks);
      ghost var all, c := bks + ks, impl.Capacity();
      ConcatSeps(bks, ks);
      ReadyGives(all, h, others + multiset{before, id}, pre, post);
      ghost var b0 := impl.blocks;
      assert ReadyIn(b0, all, h, others + multiset{before, id}, pre, post);
      var choose := impl.IndexChoose(before, id);
      if choose > 0 {
        MergeIndex(before, id, bks, ks, h, others, pre, post);
        bs', ts' := [Node(before, all)], [];
        assert all[..|all|] == all;
        NodesShared(before, bks, id, ks, all, h, c);
        assert bs' + ts' == bs';
        return None, bs', ts';
      }
      ghost var cut := |bks|;
      if choose < 0 {
        impl.IndexAverage(before, id);
        cut := AverageCut(|bks|, |ks|);
      }
      WroteIndex(b0, all, h, others, pre, post, multiset{before, id});
      assert all[..cut] + all[cut..] == all;
      SepsCut(all, cut);
      assert choose >= 0 ==> all[..cut] == bks && all[cut..] == ks;
      NodesReady(before, all[..cut], id, all[cut..], h, others, pre, post);
      bs', ts' := [Node(before, all[..cut])], [Node(id, all[cut..])];
      assert bs' + ts' == [Node(before, all[..cut]), Node(id, all[cut..])];
      NodesShared(before, bks, id, ks, all[..cut], h, c);
      res := Some(Sep(impl.blocks[id].seps[0].key, id));
    }

    lemma NodesSharedAt(b: Tree<V>, id: nat, ks: seq<Tree<V>>)
      requires b.Node?
      ensures var all, cut := b.kids + ks, CutOf(|b.kids|, |ks|, impl.indexPair, BLOCK_SIZE - INDEX_BEGIN);
        NodesSharedOut(b, id, ks) ==
          ([Node(b.id, all[..cut])], if |all| <= impl.Capacity().index then [] else [Node(id, all[cut..])])
    {
    }

    method MergeIndex(before: nat, id: nat, ghost bks: seq<Tree<V>>, ghost ks: seq<Tree<V>>, ghost h: nat,
                      ghost others: multiset<nat>, ghost pre: seq<nat>, ghost post: seq<nat>)
      requires Ready(bks + ks, h, others + multiset{before, id}, pre, post) && multiset(pre) + multiset(post) <= others
      requires before in impl.blocks && impl.blocks[before] == Index(Seps(bks)) && impl.IsIndex(id) && before != id
      requires impl.blocks[id] == Index(Seps(ks)) && 0 < |bks + ks| <= impl.Capacity().index
      modifies impl
      ensures Ready([Node(before, bks + ks)], h + 1, others, pre, post) && impl.beginBlock == old(impl.beginBlock)
      ensures Keeps(old(impl.blocks), impl.blocks, others) && impl.Unused() == Give(old(impl.Unused()), id)
    {
      hide ReadyIn, FlatF, LeavesF, IdsF, Keeps, Seps;
      ConcatSeps(bks, ks);
      impl.IndexMerge(before, id);
      WroteIndex(old(impl.blocks), bks + ks, h, others, pre, post, multiset{before, id});
      ghost var b := impl.blocks;
      DropMerged(before, id, bks + ks, h, others, pre, post);
      KeepsTrans(old(impl.blocks), b, impl.blocks, others);
    }

    method DropMerged(before: nat, id: nat, ghost all: seq<Tree<V>>, ghost h: nat,
                      ghost others: multiset<nat>, ghost pre: seq<nat>, ghost post: seq<nat>)
      requires Ready(all, h, others + multiset{before, id}, pre, post) && multiset(pre) + multiset(post) <= others
      requires before in impl.blocks && impl.blocks[before] == Index(Seps(all)) && 0 < |all| <= impl.Capacity().index
      requires impl.IsIndex(id)
      modifies impl
      ensures Ready([Node(before, all)], h + 1, others, pre, post) && impl.beginBlock == old(impl.beginBlock)
      ensures Keeps(old(impl.blocks), impl.blocks, others) && impl.Unused() == Give(old(impl.Unused()), id)
    {
      hide FreeList, Partition, Chain, FlatF, LeavesF, IdsF, RepF, ShapeF, Placed, Keeps, Seps;
      ghost var was := others + multiset{before};
      assert was + multiset{id} == others + multiset{before, id};
      DropIndex(id, all, h, was, pre, post);
      KeepsPart(old(impl.blocks), impl.blocks, IdsF(all), was);
      KeepsPart(old(impl.blocks), impl.blocks, others, multiset{before});
      KeepsOne(old(impl.blocks), impl.blocks, before);
      NodeReady(before, all, h, others, pre, post);
    }
  }
}
