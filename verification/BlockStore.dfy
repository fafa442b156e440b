/** The block store under a B+ tree: allocation through the deleted-block list kept in the head block
    and in chained record blocks, and the slot operations of data and index blocks. */
module BlockStore {
  import opened SortedEntries
  import opened Trees

  const BLOCK_SIZE: nat := 4096
  const HEAD_BEGIN: nat := 17
  const RECORD_BEGIN: nat := 7
  const DATA_BEGIN: nat := 11
  const INDEX_BEGIN: nat := 3
  const PTR_SIZE: nat := 4

  /** How many deleted indices fit in the head block, and in one record block. */
  const HEAD_CAP: nat := (BLOCK_SIZE - HEAD_BEGIN) / PTR_SIZE
  const RECORD_CAP: nat := (BLOCK_SIZE - RECORD_BEGIN) / PTR_SIZE

  type pos = n: nat | n > 0 witness 1

  ghost function InsertAt<T>(s: seq<T>, p: nat, e: T): (r: seq<T>)
    requires p <= |s|
    ensures |r| == |s| + 1
  {
    s[..p] + [e] + s[p..]
  }

  lemma PutIsInsert<V>(es: seq<Entry<V>>, e: Entry<V>)
    ensures Put(es, e) == InsertAt(es, Rank(es, e.key), e)
  {
  }

  /** split: cutting after inserting is inserting into the half the position falls in. */
  lemma SplitSlices<T>(s: seq<T>, p: nat, e: T)
    requires p <= |s|
    ensures var t := (|s| + 1) / 2;
      if p < t then
        InsertAt(s[..t - 1], p, e) == InsertAt(s, p, e)[..t] && s[t - 1..] == InsertAt(s, p, e)[t..]
      else
        s[..t] == InsertAt(s, p, e)[..t] && InsertAt(s[t..], p - t, e) == InsertAt(s, p, e)[t..]
  {
  }

  /** average: where the joined slots of two blocks are cut again. */
  function AverageCut(n: nat, m: nat): (cut: nat)
    ensures cut <= n + m && -1 <= cut - (n + m - cut) <= 1
  {
    if n > m then (n + m) / 2 else n + m - (n + m) / 2
  }

  lemma AverageSlices<T>(a: seq<T>, d: seq<T>)
    ensures var half, cut := (|a| + |d|) / 2, AverageCut(|a|, |d|);
      if |a| > |d| then
        a[..half] + a[|a|..] == (a + d)[..cut] && d[..0] + a[half..|a|] + d[0..] == (a + d)[cut..]
      else
        a[..|a|] + d[0..|d| - half] + a[|a|..] == (a + d)[..cut] && d[..0] + d[|d| - half..] == (a + d)[cut..]
  {
    var half := (|a| + |d|) / 2;
    if |a| > |d| {
      CutInFirst(a, d, half);
    } else {
      CutInSecond(a, d, |d| - half);
    }
  }

  lemma CutInFirst<T>(a: seq<T>, d: seq<T>, cut: nat)
    requires cut <= |a|
    ensures a[..cut] + a[|a|..] == (a + d)[..cut] && d[..0] + a[cut..|a|] + d[0..] == (a + d)[cut..]
  {
    var s := a + d;
    assert forall i :: 0 <= i < cut ==> s[i] == a[i];
    assert forall i :: cut <= i < |a| ==> s[i] == a[i];
    assert forall i :: 0 <= i < |d| ==> s[|a| + i] == d[i];
  }

  lemma CutInSecond<T>(a: seq<T>, d: seq<T>, n: nat)
    requires n <= |d|
    ensures a[..|a|] + d[0..n] + a[|a|..] == (a + d)[..|a| + n] && d[..0] + d[n..] == (a + d)[|a| + n..]
  {
    var s := a + d;
    assert forall i :: 0 <= i < |a| ==> s[i] == a[i];
    assert forall i :: 0 <= i < |d| ==> s[|a| + i] == d[i];
  }

  lemma MoveTail<T>(s: seq<T>, none: seq<T>, k: nat)
    requires k <= |s| && none == []
    ensures none[..0] + s[k..|s|] + none[0..] == s[k..] && s[..k] + s[|s|..] == s[..k]
  {
  }

  ghost predicate SepSorted(seps: seq<Sep>) {
    forall i, j :: 0 <= i < j < |seps| ==> seps[i].key < seps[j].key
  }

  /** p is the position of the first separator not below key. */
  ghost predicate IsSepRank(seps: seq<Sep>, key: int, p: nat) {
    && p <= |seps|
    && (forall i :: 0 <= i < p ==> seps[i].key < key)
    && (p < |seps| ==> seps[p].key >= key)
  }

  lemma SlotsFit(n: nat, pair: pos, bytes: nat)
    ensures n * pair <= bytes <==> n <= bytes / pair
  {
    var q := bytes / pair;
    assert q * pair <= bytes < (q + 1) * pair;
    if n <= q {
      assert n * pair <= q * pair;
    } else {
      assert (q + 1) * pair <= n * pair;
    }
  }

  /** The fill of two blocks differs by less than half a block. */
  ghost predicate Near(size: nat, otherSize: nat, maxSize: nat) {
    size - otherSize < maxSize / 2 && otherSize - size < maxSize / 2
  }

  /** How many slots of two neighbouring blocks of n and m end up in the first: all if they fit in one block,
      half if one is fuller than the other by half a block or more, and otherwise as many as before. */
  ghost function CutOf(n: nat, m: nat, pair: pos, bytes: nat): (cut: nat)
    ensures cut <= n + m
  {
    if n + m <= bytes / pair then n + m
    else if Near(n * pair, m * pair, bytes) then n
    else AverageCut(n, m)
  }

  /** Blocks of n and m slots that are neither empty nor over-full, and of about the same fill. */
  ghost predicate Balanced(n: nat, m: nat, pair: pos, bytes: nat) {
    && 0 < n <= bytes / pair && 0 < m <= bytes / pair
    && (-1 <= n - m <= 1 || Near(n * pair, m * pair, bytes))
  }

  /** Two blocks of which neither is over-full become one exactly if that is not over-full, and else stay two of about
      the same fill, neither empty. */
  lemma CutIsFair(n: nat, m: nat, pair: pos, bytes: nat)
    requires n <= bytes / pair && m <= bytes / pair
    ensures var cut := CutOf(n, m, pair, bytes); var rest := n + m - cut;
      if n + m <= bytes / pair then rest == 0
      else Balanced(cut, rest, pair, bytes)
  {
    hide Near;
    var cap, a, b := bytes / pair, n * pair, m * pair;
    if n + m > cap && Near(a, b, bytes) {
      assert CutOf(n, m, pair, bytes) == n && n + m - n == m;
    }
  }

  /** The block indices not in use: those deleted, to be handed out from the top, then all from total on. */
  datatype Free = Free(stack: seq<nat>, total: nat)

  ghost function NextOf(f: Free): nat {
    if f.stack == [] then f.total else f.stack[|f.stack| - 1]
  }

  ghost function Take(f: Free): Free {
    if f.stack == [] then Free([], f.total + 1) else Free(f.stack[..|f.stack| - 1], f.total)
  }

  ghost function Give(f: Free, id: nat): Free {
    Free(f.stack + [id], f.total)
  }

  /** A block given back is the next one taken. */
  lemma GiveTake(f: Free, id: nat)
    ensures NextOf(Give(f, id)) == id && Take(Give(f, id)) == f
    ensures f.stack != [] ==> Give(Take(f), NextOf(f)) == f
    ensures f.stack == [] ==> NextOf(f) == f.total && Take(f) == Free([], f.total + 1)
  {
    assert (f.stack + [id])[..|f.stack|] == f.stack;
  }

  // ---- the deleted-block list as one stack ----

  /** The slots of the head block, then of the chained record blocks, spell out the stack.
      r is the record block now being filled (0: still in the head block). */
  ghost predicate FreeList<V>(b: Store<V>, head: seq<nat>, r: nat, stack: seq<nat>) {
    && |head| == HEAD_CAP
    && if r == 0 then |stack| <= HEAD_CAP && head[..|stack|] == stack else Records(b, head, r, stack)
  }

  /** A record block r holds the top of the stack; r itself is the entry just below its own entries,
      and everything below that is full. */
  ghost predicate Records<V>(b: Store<V>, head: seq<nat>, r: nat, stack: seq<nat>)
    decreases |stack|
  {
    && r in b && b[r].Record? && |b[r].slots| == RECORD_CAP
    && 1 <= b[r].size <= RECORD_CAP && b[r].size < |stack|
    && var n := |stack| - b[r].size;
    && stack[n..] == b[r].slots[..b[r].size]
    && stack[n - 1] == r
    && if b[r].last == 0 then stack[..n] == head
       else b[r].last in b && b[b[r].last].Record? && b[b[r].last].size == RECORD_CAP
            && Records(b, head, b[r].last, stack[..n])
  }

  /** The blocks now serving as records. */
  ghost function Serving<V>(b: Store<V>, head: seq<nat>, r: nat, stack: seq<nat>): set<nat>
    requires Records(b, head, r, stack)
    decreases |stack|
  {
    {r} + if b[r].last == 0 then {} else Serving(b, head, b[r].last, stack[..|stack| - b[r].size])
  }

  /** A record block lies strictly below the top of the stack for as long as it serves, so the
      block handed out next is never one whose own entries are still needed. */
  lemma {:induction false} ServingIsBuried<V>(b: Store<V>, head: seq<nat>, r: nat, stack: seq<nat>)
    requires Records(b, head, r, stack) && NoDup(stack)
    ensures stack != [] && stack[|stack| - 1] !in Serving(b, head, r, stack)
    ensures forall x :: x in Serving(b, head, r, stack) ==> x in stack[..|stack| - 1]
    decreases |stack|
  {
    var n := |stack| - b[r].size;
    if b[r].last != 0 {
      ServingIsBuried(b, head, b[r].last, stack[..n]);
    }
    forall x | x in Serving(b, head, r, stack)
      ensures x in stack[..|stack| - 1]
    {
      if x == r {
        assert stack[..|stack| - 1][n - 1] == r;
      } else {
        assert x in stack[..n];
        var i :| 0 <= i < n && stack[..n][i] == x;
        assert stack[..|stack| - 1][i] == x;
      }
    }
  }

  lemma {:induction false} RecordsFrame<V>(b: Store<V>, b': Store<V>, head: seq<nat>, r: nat, stack: seq<nat>)
    requires Records(b, head, r, stack)
    requires forall i :: 0 <= i < |stack| - 1 && stack[i] in b ==> stack[i] in b' && b'[stack[i]] == b[stack[i]]
    ensures Records(b', head, r, stack)
    decreases |stack|
  {
    var n := |stack| - b[r].size;
    assert stack[n - 1] == r;
    assert b'[r] == b[r];
    if b[r].last != 0 {
      var low := stack[..n];
      var l := b[r].last;
      RecordsFrame(b, b', head, l, low);
      assert low[|low| - b[l].size - 1] == l;
      assert stack[|low| - b[l].size - 1] == l;
    }
  }

  lemma PartitionGrow(ids: multiset<nat>, total: nat)
    requires total >= 1 && Partition(ids, total)
    ensures Partition(ids + multiset{total}, total + 1)
  {
    forall x: nat
      ensures (ids + multiset{total})[x] == if 1 <= x < total + 1 then 1 else 0
    {
      assert ids[x] == if 1 <= x < total then 1 else 0;
    }
  }

  lemma {:induction false} PartitionCount(ids: multiset<nat>, total: nat)
    requires total >= 1 && Partition(ids, total)
    ensures |ids| == total - 1
    decreases total
  {
    if total == 1 {
      assert ids == multiset{};
    } else {
      var last := total - 1;
      assert ids[last] == 1;
      var less := ids - multiset{last};
      forall x: nat
        ensures less[x] == if 1 <= x < last then 1 else 0
      {
        assert ids[x] == if 1 <= x < total then 1 else 0;
      }
      PartitionCount(less, last);
      assert ids == less + multiset{last};
    }
  }

  lemma PartitionApart(ids: multiset<nat>, stack: seq<nat>, total: nat)
    requires Partition(ids + multiset(stack), total)
    ensures NoDup(stack)
    ensures forall x :: x in stack ==> 1 <= x < total && x !in ids
    ensures forall x :: x in ids ==> 1 <= x < total && ids[x] == 1
  {
    var m := ids + multiset(stack);
    assert forall x: nat :: m[x] == ids[x] + multiset(stack)[x];
    NoDupFromCount(stack);
    forall x | x in stack
      ensures 1 <= x < total && x !in ids
    {
      assert x in multiset(stack) && m[x] == ids[x] + multiset(stack)[x];
    }
    forall x | x in ids
      ensures 1 <= x < total && ids[x] == 1
    {
      assert m[x] == ids[x] + multiset(stack)[x];
    }
  }

  lemma Apart(a: multiset<nat>, b: multiset<nat>, stack: seq<nat>, total: nat)
    requires Partition(a + b + multiset(stack), total)
    ensures forall x :: x in a || x in b ==> 1 <= x < total && x !in stack && (a + b)[x] == 1
    ensures forall x :: x in a ==> x !in b
  {
    PartitionApart(a + b, stack, total);
    assert forall x :: x in a || x in b ==> x in a + b;
    assert forall x :: (a + b)[x] == a[x] + b[x];
  }

  lemma LastFirst(A: seq<nat>, x: nat, B: seq<nat>)
    requires 0 !in A + [x] + B
    ensures A != [] ==> Last(A) != 0 && Last(A) in A
    ensures B != [] ==> First(B) != 0 && First(B) in B
  {
    assert forall i :: 0 <= i < |A| ==> (A + [x] + B)[i] == A[i];
    assert forall i :: 0 <= i < |B| ==> (A + [x] + B)[|A| + 1 + i] == B[i];
  }

  lemma FreeListFrame<V>(b: Store<V>, b': Store<V>, head: seq<nat>, r: nat, stack: seq<nat>)
    requires FreeList(b, head, r, stack)
    requires forall x :: x in stack && x in b ==> x in b' && b'[x] == b[x]
    ensures FreeList(b', head, r, stack)
  {
    if r != 0 {
      RecordsFrame(b, b', head, r, stack);
    }
  }

  lemma LinkedAreOwned(ids: multiset<nat>, id: nat, A: seq<nat>, B: seq<nat>)
    requires forall x :: x in ids + multiset{id} ==> x >= 1 && (ids + multiset{id})[x] == 1
    requires multiset(A) + multiset(B) <= ids
    ensures NoDup(A + [id] + B) && 0 !in A + [id] + B
    ensures forall x :: x in A || x in B ==> x in ids && x != id
  {
    var L := A + [id] + B;
    assert multiset(L) == multiset(A) + multiset(B) + multiset{id};
    assert multiset(L) <= ids + multiset{id};
    NoDupFromCount(L);
    assert forall x :: x in L ==> x in ids + multiset{id};
    forall x | x in A || x in B
      ensures x in ids && x != id
    {
      assert x in multiset(A) + multiset(B);
      assert (ids + multiset{id})[x] == ids[x] + multiset{id}[x];
    }
  }

  class BPTreeImpl<V> {
    var blocks: Store<V>
    var total: nat
    var beginBlock: nat
    var validBlocks: nat
    var deletedBlocks: nat
    var headSlots: seq<nat>
    var recordIndex: nat
    const dataPair: pos
    const indexPair: pos
    /** The deleted blocks, oldest first. */
    ghost var stack: seq<nat>

    /** Every block but the head is in use (ids) or deleted (stack), never both, and the counters say how many. */
    ghost predicate Owned(ids: multiset<nat>)
      reads this
    {
      OwnedIn(blocks, ids)
    }

    ghost predicate OwnedIn(b: Store<V>, ids: multiset<nat>)
      reads this`total, this`stack, this`headSlots, this`recordIndex, this`deletedBlocks, this`validBlocks
    {
      && total >= 1 && 0 !in stack
      && FreeList(b, headSlots, recordIndex, stack)
      && deletedBlocks == |stack| && validBlocks == |ids|
      && Partition(ids + multiset(stack), total)
      && forall x :: 1 <= x < total ==> x in b
    }

    constructor (dataPair: pos, indexPair: pos)
      ensures Owned(multiset{}) && beginBlock == 0 && total == 1 && stack == []
      ensures this.dataPair == dataPair && this.indexPair == indexPair
    {
      this.dataPair, this.indexPair := dataPair, indexPair;
      blocks, total := map[], 1;
      beginBlock, validBlocks, deletedBlocks, recordIndex := 0, 0, 0, 0;
      headSlots := seq(HEAD_CAP, _ => 0);
      stack := [];
    }

    /** Every block of the file is the head, in use, or deleted. */
    lemma Conservation(ids: multiset<nat>)
      requires Owned(ids)
      ensures total == 1 + validBlocks + deletedBlocks
    {
      PartitionCount(ids + multiset(stack), total);
    }

    lemma StackNoDup(ids: multiset<nat>)
      requires Owned(ids)
      ensures NoDup(stack)
      ensures forall x :: x in stack ==> 1 <= x < total && x !in ids
      ensures forall x :: x in ids ==> 1 <= x < total && ids[x] == 1
    {
      PartitionApart(ids, stack, total);
    }

    ghost function Unused(): Free
      reads this`stack, this`total
    {
      Free(stack, total)
    }

    /** Writing to blocks in use does not disturb the deleted list. */
    lemma OwnedFrame(b: Store<V>, ids: multiset<nat>)
      requires OwnedIn(b, ids) && blocks.Keys >= b.Keys
      requires forall x :: x in b && x !in ids ==> blocks[x] == b[x]
      ensures Owned(ids)
    {
      PartitionApart(ids, stack, total);
      FreeListFrame(b, blocks, headSlots, recordIndex, stack);
    }

    /** A block in use is in the store, is not deleted, and belongs to one part of the tree only. */
    lemma OwnedApart(a: multiset<nat>, b: multiset<nat>)
      requires Owned(a + b)
      ensures forall x :: x in a || x in b ==> 1 <= x < total && x in blocks && x !in stack && (a + b)[x] == 1
      ensures forall x :: x in a ==> x !in b
    {
      Apart(a, b, stack, total);
    }

    // ---- BPTree_impl: deleted blocks ----

    predicate HeadCanAdd(deleted: nat) {
      var ret := BLOCK_SIZE - HEAD_BEGIN;
      var rest := if ret / 4 < deleted then ret % 4 else ret - deleted * 4;
      rest >= 4
    }

    /** The free-list half of erase_block: id goes on top of the stack. */
    method PushDeleted(id: nat)
      requires FreeList(blocks, headSlots, recordIndex, stack) && deletedBlocks == |stack|
      requires NoDup(stack) && 0 !in stack && id !in stack
      modifies this`blocks, this`deletedBlocks, this`headSlots, this`recordIndex, this`stack
      ensures stack == old(stack) + [id] && deletedBlocks == |stack|
      ensures FreeList(blocks, headSlots, recordIndex, stack)
      ensures blocks.Keys >= old(blocks).Keys
      ensures forall x :: x in old(blocks) && x !in old(stack) ==> blocks[x] == old(blocks)[x]
    {
      ghost var b0 := blocks;
      ghost var old_stack := stack;
      if recordIndex != 0 {
        var cur := blocks[recordIndex];
        if !(cur.size < (BLOCK_SIZE - RECORD_BEGIN) / 4) {
          var newRecord := cur.slots[cur.size - 1];
          assert newRecord == stack[|stack| - 1];
          StartRecord(newRecord, recordIndex, id);
        } else {
          blocks := blocks[recordIndex := Record(cur.last, cur.size + 1, cur.slots[cur.size := id])];
          deletedBlocks := deletedBlocks + 1;
          stack := stack + [id];
          GrowRecord(b0, blocks, headSlots, recordIndex, old_stack, id);
        }
      } else if HeadCanAdd(deletedBlocks) {
        headSlots := headSlots[deletedBlocks := id];
        deletedBlocks := deletedBlocks + 1;
        stack := stack + [id];
      } else {
        var newRecord := headSlots[deletedBlocks - 1];
        StartRecord(newRecord, 0, id);
      }
    }

    /** The last deleted block becomes a record block holding id. */
    method StartRecord(newRecord: nat, last: nat, id: nat)
      requires FreeList(blocks, headSlots, recordIndex, stack) && deletedBlocks == |stack|
      requires NoDup(stack) && 0 !in stack
      requires last == recordIndex && (recordIndex == 0 ==> |stack| == HEAD_CAP)
      requires recordIndex != 0 ==> blocks[recordIndex].size == RECORD_CAP
      requires stack != [] && newRecord == stack[|stack| - 1]
      modifies this`blocks, this`deletedBlocks, this`recordIndex, this`stack
      ensures stack == old(stack) + [id] && deletedBlocks == |stack|
      ensures FreeList(blocks, headSlots, recordIndex, stack)
      ensures blocks.Keys == old(blocks).Keys + {newRecord} && recordIndex == newRecord
      ensures forall x :: x in old(blocks) && x != newRecord ==> blocks[x] == old(blocks)[x]
    {
      hide Records, NoDup;
      ghost var b0, was := blocks, stack;
      blocks := blocks[newRecord := Record(last, 1, seq(RECORD_CAP, _ => 0)[0 := id])];
      if last != 0 {
        RecordTop(b0, headSlots, last, stack);
        BelowTop(b0, blocks, stack, newRecord);
        RecordsFrame(b0, blocks, headSlots, last, stack);
      } else {
        assert headSlots[..HEAD_CAP] == headSlots;
      }
      deletedBlocks := deletedBlocks + 1;
      recordIndex := newRecord;
      stack := stack + [id];
      assert stack[..|was|] == was && stack[|was| - 1] == newRecord;
      assert stack[|was|..] == blocks[newRecord].slots[..1];
      RecordsOf(blocks, headSlots, newRecord, stack, |was|);
    }

    /** The index handed out is the last one deleted, and no record block stores entries there any more. */
    method GetNewBlockIndex() returns (index: nat)
      requires FreeList(blocks, headSlots, recordIndex, stack) && deletedBlocks == |stack|
      requires NoDup(stack) && 0 !in stack && stack != []
      modifies this`blocks, this`deletedBlocks, this`headSlots, this`recordIndex, this`stack
      ensures old(stack) == stack + [index] && deletedBlocks == |stack|
      ensures FreeList(blocks, headSlots, recordIndex, stack)
      ensures recordIndex != 0 ==> index !in Serving(blocks, headSlots, recordIndex, stack)
      ensures blocks.Keys == old(blocks).Keys
      ensures forall x :: x in old(blocks) && x !in old(stack) ==> blocks[x] == old(blocks)[x]
    {
      if recordIndex == 0 {
        deletedBlocks := deletedBlocks - 1;
        index := headSlots[deletedBlocks];
        headSlots := headSlots[deletedBlocks := 0];
        stack := stack[..|stack| - 1];
      } else {
        index := PopRecord();
        deletedBlocks := deletedBlocks - 1;
        if recordIndex != 0 {
          PoppedIsNotServing(blocks, headSlots, recordIndex, stack, index);
        }
      }
    }

    method PopRecord() returns (index: nat)
      requires recordIndex != 0 && |headSlots| == HEAD_CAP
      requires Records(blocks, headSlots, recordIndex, stack) && NoDup(stack)
      modifies this`blocks, this`recordIndex, this`stack
      ensures old(stack) == stack + [index]
      ensures FreeList(blocks, headSlots, recordIndex, stack)
      ensures blocks.Keys == old(blocks).Keys
      ensures forall x :: x in old(blocks) && x !in old(stack) ==> blocks[x] == old(blocks)[x]
    {
      hide Records, FreeList, NoDup;
      ghost var b0, r := blocks, recordIndex;
      RecordTop(blocks, headSlots, r, stack);
      var cur := blocks[recordIndex];
      index := cur.slots[cur.size - 1];
      blocks := blocks[recordIndex := Record(cur.last, cur.size - 1, cur.slots[cur.size - 1 := 0])];
      if !(cur.size - 1 > 0) {
        recordIndex := cur.last;
      }
      ShrinkRecord(b0, blocks, headSlots, r, stack);
      stack := stack[..|stack| - 1];
    }

    // ---- BPTree_impl and Impl_Scheduler: creating and erasing blocks ----

    ghost function Capacity(): Caps {
      Caps((BLOCK_SIZE - DATA_BEGIN) / dataPair, (BLOCK_SIZE - INDEX_BEGIN) / indexPair)
    }

    /** The index of a block for new content: the last one deleted, or else a new one at the end. */
    method TakeIndex(ghost ids: multiset<nat>) returns (index: nat)
      requires Owned(ids)
      modifies this`blocks, this`total, this`deletedBlocks, this`headSlots, this`recordIndex, this`stack
      modifies this`validBlocks
      ensures index != 0 && index !in ids && index !in stack && index < total && validBlocks == |ids| + 1
      ensures if old(stack) == [] then index == old(total) && total == old(total) + 1 && stack == []
              else old(stack) == stack + [index] && total == old(total)
      ensures FreeList(blocks, headSlots, recordIndex, stack) && deletedBlocks == |stack| && 0 !in stack
      ensures Partition(ids + multiset{index} + multiset(stack), total)
      ensures forall x :: 1 <= x < total && x != index ==> x in blocks
      ensures forall x :: x in ids ==> x in old(blocks) && x in blocks && blocks[x] == old(blocks)[x]
    {
      StackNoDup(ids);
      validBlocks := validBlocks + 1;
      if deletedBlocks == 0 {
        index := total;
        PartitionGrow(ids + multiset(stack), total);
        assert ids + multiset(stack) + multiset{index} == ids + multiset{index} + multiset(stack);
        total := total + 1;
      } else {
        ghost var was := stack;
        index := GetNewBlockIndex();
        assert multiset(was) == multiset(stack) + multiset{index};
        assert ids + multiset(was) == ids + multiset{index} + multiset(stack);
        assert index == was[|was| - 1];
        assert forall i :: 0 <= i < |stack| ==> stack[i] == was[i] && was[i] != was[|was| - 1];
      }
    }

    static lemma Taken(f: Free, g: Free, index: nat)
      requires if f.stack == [] then index == f.total && g.total == f.total + 1 && g.stack == []
               else f.stack == g.stack + [index] && g.total == f.total
      ensures index == NextOf(f) && g == Take(f)
    {
    }

    method CreateBlock(block: Block<V>, ghost ids: multiset<nat>) returns (index: nat)
      requires Owned(ids)
      modifies this`blocks, this`total, this`deletedBlocks, this`headSlots, this`recordIndex, this`stack
      modifies this`validBlocks
      ensures index != 0 && index !in ids && index in blocks && blocks[index] == block
      ensures Owned(ids + multiset{index})
      ensures index == NextOf(old(Unused())) && Unused() == Take(old(Unused()))
      ensures forall x :: x in ids ==> x in old(blocks) && x in blocks && blocks[x] == old(blocks)[x]
    {
      hide NextOf, Take, Partition, FreeList;
      ghost var f := Unused();
      index := TakeIndex(ids);
      Taken(f, Unused(), index);
      ghost var b0 := blocks;
      blocks := blocks[index := block];
      FreeListFrame(b0, blocks, headSlots, recordIndex, stack);
    }

    /** DataBlock::erase_block: take a leaf out of the chain. */
    method UnlinkLeaf(id: nat, ghost A: seq<nat>, ghost B: seq<nat>)
      requires Chain(blocks, A + [id] + B) && NoDup(A + [id] + B) && 0 !in A + [id] + B
      modifies this`blocks
      ensures Chain(blocks, A + B) && blocks.Keys == old(blocks).Keys
      ensures forall x :: x in old(blocks) ==> SameContent(old(blocks), blocks, x)
      ensures forall x :: x in old(blocks) && x !in A && x !in B ==> blocks[x] == old(blocks)[x]
    {
      hide Chain, NoDup;
      ghost var b0 := blocks;
      Neighbours(blocks, A, id, B);
      MiddleIsApart(A, id, B);
      LastFirst(A, id, B);
      ChainIn(blocks, A + [id] + B);
      assert forall x :: x in A || x in B ==> x in A + [id] + B;
      var prevIndex, nextIndex := blocks[id].prev, blocks[id].next;
      if prevIndex != 0 {
        blocks := blocks[prevIndex := blocks[prevIndex].(next := nextIndex)];
      }
      if nextIndex != 0 {
        blocks := blocks[nextIndex := blocks[nextIndex].(prev := prevIndex)];
      }
      ChainRemove(b0, blocks, A, id, B);
    }

    method Discard(id: nat, ghost ids: multiset<nat>)
      requires FreeList(blocks, headSlots, recordIndex, stack) && deletedBlocks == |stack| && total >= 1
      requires Partition(ids + multiset{id} + multiset(stack), total) && 0 !in stack && validBlocks == |ids|
      requires forall x :: 1 <= x < total ==> x in blocks
      modifies this`blocks, this`deletedBlocks, this`headSlots, this`recordIndex, this`stack
      ensures Owned(ids) && stack == old(stack) + [id]
      ensures forall x :: x in ids ==> x in old(blocks) && x in blocks && blocks[x] == old(blocks)[x]
    {
      PartitionApart(ids + multiset{id}, stack, total);
      assert id in ids + multiset{id};
      assert forall x :: x in ids ==> x in ids + multiset{id};
      PushDeleted(id);
      assert ids + multiset{id} + multiset(old(stack)) == ids + multiset(stack);
    }

    /** BPTree_impl::erase_block: unlink a leaf, then put the block on the deleted list. */
    method EraseBlock(id: nat, ghost ids: multiset<nat>, ghost A: seq<nat>, ghost B: seq<nat>)
      requires Owned(ids + multiset{id})
      requires id in blocks && (blocks[id].Data? || blocks[id].Index?)
      requires Chain(blocks, if blocks[id].Data? then A + [id] + B else A + B)
      requires multiset(A) + multiset(B) <= ids
      modifies this`blocks, this`deletedBlocks, this`headSlots, this`recordIndex, this`stack, this`validBlocks
      ensures Owned(ids) && stack == old(stack) + [id] && Chain(blocks, A + B)
      ensures Keeps(old(blocks), blocks, ids)
    {
      hide Chain, NoDup, FreeList;
      StackNoDup(ids + multiset{id});
      assert id in ids + multiset{id};
      LinkedAreOwned(ids, id, A, B);
      if blocks[id].Data? {
        UnlinkLeaf(id, A, B);
        FreeListFrame(old(blocks), blocks, headSlots, recordIndex, stack);
      }
      ghost var b1 := blocks;
      validBlocks := validBlocks - 1;
      Discard(id, ids);
      ChainFrame(b1, blocks, A + B);
    }

    // ---- DataBlock_Impl ----

    ghost predicate IsData(id: nat)
      reads this`blocks
    {
      id in blocks && blocks[id].Data?
    }

    method DataLowerBound(id: nat, key: int) returns (p: nat)
      requires IsData(id) && Sorted(blocks[id].entries)
      ensures p == Rank(blocks[id].entries, key)
    {
      var es := blocks[id].entries;
      var begin, end := 0, |es|;
      while end - begin > 0
        invariant 0 <= begin <= end <= |es|
        invariant forall i :: 0 <= i < begin ==> es[i].key < key
        invariant forall i :: end <= i < |es| ==> es[i].key >= key
      {
        var mid := begin + (end - begin) / 2;
        if es[mid].key < key {
          begin := mid + 1;
          continue;
        }
        end := mid;
        if es[mid].key == key {
          break;
        }
      }
      RankUnique(es, key, end);
      p := end;
    }

    method DataCanInsert(id: nat) returns (ok: bool)
      requires IsData(id)
      ensures ok <==> |blocks[id].entries| + 1 <= Capacity().data
    {
      var size := |blocks[id].entries| * dataPair;
      ok := size + dataPair + DATA_BEGIN <= BLOCK_SIZE;
      SlotsFit(|blocks[id].entries| + 1, dataPair, BLOCK_SIZE - DATA_BEGIN);
      assert size + dataPair == (|blocks[id].entries| + 1) * dataPair;
    }

    method DataInsert(id: nat, p: nat, e: Entry<V>)
      requires IsData(id) && p <= |blocks[id].entries|
      modifies this`blocks
      ensures blocks == old(blocks)[id := old(blocks)[id].(entries := InsertAt(old(blocks)[id].entries, p, e))]
    {
      var block := blocks[id];
      blocks := blocks[id := block.(entries := block.entries[..p] + [e] + block.entries[p..])];
    }

    /** True when more than half of the block is still in use. */
    method DataErase(id: nat, p: nat) returns (keep: bool)
      requires IsData(id) && p < |blocks[id].entries|
      modifies this`blocks
      ensures var o := old(blocks)[id];
        blocks == old(blocks)[id := o.(entries := o.entries[..p] + o.entries[p + 1..])]
      ensures keep <==> |blocks[id].entries| * dataPair > (BLOCK_SIZE - DATA_BEGIN) / 2
      ensures keep ==> blocks[id].entries != []
    {
      var block := blocks[id];
      blocks := blocks[id := block.(entries := block.entries[..p] + block.entries[p + 1..])];
      keep := |blocks[id].entries| * dataPair > (BLOCK_SIZE - DATA_BEGIN) / 2;
    }

    method DataMerge(id: nat, other: nat)
      requires IsData(id) && IsData(other) && id != other
      modifies this`blocks
      ensures var a, d := old(blocks)[id], old(blocks)[other];
        blocks == old(blocks)[id := a.(entries := a.entries + d.entries)][other := d.(entries := [])]
    {
      var a, d := blocks[id], blocks[other];
      blocks := blocks[id := a.(entries := a.entries + d.entries)][other := d.(entries := [])];
    }

    /** move_other_block_data: n pairs of src from spos on go in front of position dpos of dest. */
    method MoveData(dest: nat, dpos: nat, src: nat, spos: nat, n: nat)
      requires IsData(dest) && IsData(src) && dest != src
      requires dpos <= |blocks[dest].entries| && spos + n <= |blocks[src].entries|
      modifies this`blocks
      ensures var d, s := old(blocks)[dest], old(blocks)[src];
        blocks == old(blocks)
          [dest := d.(entries := d.entries[..dpos] + s.entries[spos..spos + n] + d.entries[dpos..])]
          [src := s.(entries := s.entries[..spos] + s.entries[spos + n..])]
    {
      var d, s := blocks[dest], blocks[src];
      blocks := blocks[dest := d.(entries := d.entries[..dpos] + s.entries[spos..spos + n] + d.entries[dpos..])];
      blocks := blocks[src := s.(entries := s.entries[..spos] + s.entries[spos + n..])];
    }

    /** Positive: merge; zero: keep; negative: average. */
    method DataChoose(id: nat, other: nat) returns (choose: int)
      requires IsData(id) && IsData(other)
      ensures choose > 0 <==> |blocks[id].entries| + |blocks[other].entries| <= Capacity().data
      ensures choose < 0 <==>
        && choose <= 0
        && !Near(|blocks[id].entries| * dataPair, |blocks[other].entries| * dataPair, BLOCK_SIZE - DATA_BEGIN)
    {
      var maxSize := BLOCK_SIZE - DATA_BEGIN;
      var size, otherSize := |blocks[id].entries| * dataPair, |blocks[other].entries| * dataPair;
      SlotsFit(|blocks[id].entries| + |blocks[other].entries|, dataPair, maxSize);
      assert size + otherSize == (|blocks[id].entries| + |blocks[other].entries|) * dataPair;
      if size + otherSize <= maxSize {
        return 1;
      }
      var difference := if size > otherSize then size - otherSize else otherSize - size;
      choose := if difference < maxSize / 2 then 0 else -1;
    }

    method DataAverage(id: nat, other: nat)
      requires IsData(id) && IsData(other) && id != other
      modifies this`blocks
      ensures var a, d := old(blocks)[id], old(blocks)[other];
        var all, cut := a.entries + d.entries, AverageCut(|a.entries|, |d.entries|);
        blocks == old(blocks)[id := a.(entries := all[..cut])][other := d.(entries := all[cut..])]
    {
      var size, otherSize := |blocks[id].entries|, |blocks[other].entries|;
      var half := (size + otherSize) / 2;
      AverageSlices(blocks[id].entries, blocks[other].entries);
      if size > otherSize {
        MoveData(other, 0, id, half, size - half);
      } else {
        MoveData(id, size, other, 0, otherSize - half);
      }
    }

    method DataSplit(id: nat, newId: nat, e: Entry<V>)
      requires IsData(id) && IsData(newId) && id != newId && blocks[newId].entries == []
      requires Sorted(blocks[id].entries)
      requires var n := blocks[id].next; n > 0 ==> IsData(n) && n != id && n != newId
      modifies this`blocks
      ensures var o, n := old(blocks)[id], old(blocks)[id].next;
        var all, t := Put(o.entries, e), (|o.entries| + 1) / 2;
        && id in blocks && blocks[id] == Data(o.prev, newId, all[..t])
        && newId in blocks && blocks[newId] == Data(id, n, all[t..])
        && (n > 0 ==> n in blocks && blocks[n] == old(blocks)[n].(prev := newId))
        && (forall x :: x in old(blocks) && x != id && x != newId && !(n > 0 && x == n) ==>
             x in blocks && blocks[x] == old(blocks)[x])
        && blocks.Keys == old(blocks).Keys
    {
      SplitDataSlots(id, newId, e);
      blocks := blocks[newId := blocks[newId].(prev := id)];
      blocks := blocks[newId := blocks[newId].(next := blocks[id].next)];
      if blocks[id].next > 0 {
        var next := blocks[id].next;
        blocks := blocks[next := blocks[next].(prev := newId)];
      }
      blocks := blocks[id := blocks[id].(next := newId)];
    }

    /** Keep the first k pairs, move the rest to an empty block. */
    method MoveDataTail(id: nat, newId: nat, k: nat)
      requires IsData(id) && IsData(newId) && id != newId && blocks[newId].entries == []
      requires k <= |blocks[id].entries|
      modifies this`blocks
      ensures var o := old(blocks)[id];
        blocks == old(blocks)
          [id := o.(entries := o.entries[..k])]
          [newId := old(blocks)[newId].(entries := o.entries[k..])]
    {
      var size := |blocks[id].entries|;
      var move := size - k;
      MoveTail(blocks[id].entries, blocks[newId].entries, k);
      MoveData(newId, 0, id, size - move, move);
    }

    static lemma TwoChanged(b: Store<V>, x: nat, o: Block<V>, o': Block<V>, y: nat, n: Block<V>)
      requires x != y
      ensures b[x := o][y := n][x := o'] == b[x := o'][y := n]
    {
    }

    method SplitDataSlots(id: nat, newId: nat, e: Entry<V>)
      requires IsData(id) && IsData(newId) && id != newId && blocks[newId].entries == []
      requires Sorted(blocks[id].entries)
      modifies this`blocks
      ensures var es := old(blocks)[id].entries;
        var all, t := Put(es, e), (|es| + 1) / 2;
        blocks == old(blocks)
          [id := old(blocks)[id].(entries := all[..t])]
          [newId := old(blocks)[newId].(entries := all[t..])]
    {
      hide Put, InsertAt, Rank, Sorted;
      var size := |blocks[id].entries|;
      var target := (size + 1) / 2;
      var p := DataLowerBound(id, e.key);
      PutIsInsert(blocks[id].entries, e);
      SplitSlices(blocks[id].entries, p, e);
      if p < target {
        MoveDataTail(id, newId, target - 1);
        ghost var b := blocks;
        DataInsert(id, p, e);
        TwoChanged(old(blocks), id, b[id], blocks[id], newId, b[newId]);
      } else {
        MoveDataTail(id, newId, target);
        DataInsert(newId, p - target, e);
      }
    }

    // ---- IndexBlock_Impl ----

    ghost predicate IsIndex(id: nat)
      reads this`blocks
    {
      id in blocks && blocks[id].Index?
    }

    method IndexLowerBound(id: nat, key: int) returns (p: nat)
      requires IsIndex(id) && SepSorted(blocks[id].seps)
      ensures IsSepRank(blocks[id].seps, key, p)
    {
      var seps := blocks[id].seps;
      var begin, end := 0, |seps|;
      while end - begin > 0
        invariant 0 <= begin <= end <= |seps|
        invariant forall i :: 0 <= i < begin ==> seps[i].key < key
        invariant forall i :: end <= i < |seps| ==> seps[i].key >= key
      {
        var mid := begin + (end - begin) / 2;
        if seps[mid].key < key {
          begin := mid + 1;
          continue;
        }
        end := mid;
        if seps[mid].key == key {
          break;
        }
      }
      p := end;
    }

    method IndexCanInsert(id: nat) returns (ok: bool)
      requires IsIndex(id)
      ensures ok <==> |blocks[id].seps| + 1 <= Capacity().index
    {
      var size := |blocks[id].seps| * indexPair;
      ok := size + indexPair + INDEX_BEGIN <= BLOCK_SIZE;
      SlotsFit(|blocks[id].seps| + 1, indexPair, BLOCK_SIZE - INDEX_BEGIN);
      assert size + indexPair == (|blocks[id].seps| + 1) * indexPair;
    }

    method IndexInsert(id: nat, p: nat, sep: Sep)
      requires IsIndex(id) && p <= |blocks[id].seps|
      modifies this`blocks
      ensures blocks == old(blocks)[id := Index(InsertAt(old(blocks)[id].seps, p, sep))]
    {
      var seps := blocks[id].seps;
      blocks := blocks[id := Index(seps[..p] + [sep] + seps[p..])];
    }

    method IndexUpdate(id: nat, p: nat, key: int)
      requires IsIndex(id) && p < |blocks[id].seps|
      modifies this`blocks
      ensures var seps := old(blocks)[id].seps;
        blocks == old(blocks)[id := Index(seps[p := Sep(key, seps[p].child)])]
    {
      var seps := blocks[id].seps;
      blocks := blocks[id := Index(seps[p := seps[p].(key := key)])];
    }

    /** True when more than half of the block is still in use. */
    method IndexErase(id: nat, p: nat) returns (keep: bool)
      requires IsIndex(id) && p < |blocks[id].seps|
      modifies this`blocks
      ensures blocks == old(blocks)[id := Index(old(blocks)[id].seps[..p] + old(blocks)[id].seps[p + 1..])]
      ensures keep <==> |blocks[id].seps| * indexPair > (BLOCK_SIZE - INDEX_BEGIN) / 2
      ensures keep ==> blocks[id].seps != []
    {
      var seps := blocks[id].seps;
      blocks := blocks[id := Index(seps[..p] + seps[p + 1..])];
      keep := |blocks[id].seps| * indexPair > (BLOCK_SIZE - INDEX_BEGIN) / 2;
    }

    method IndexMerge(id: nat, other: nat)
      requires IsIndex(id) && IsIndex(other) && id != other
      modifies this`blocks
      ensures blocks == old(blocks)[id := Index(old(blocks)[id].seps + old(blocks)[other].seps)][other := Index([])]
    {
      var a, d := blocks[id].seps, blocks[other].seps;
      blocks := blocks[id := Index(a + d)][other := Index([])];
    }

    method MoveIndex(dest: nat, dpos: nat, src: nat, spos: nat, n: nat)
      requires IsIndex(dest) && IsIndex(src) && dest != src
      requires dpos <= |blocks[dest].seps| && spos + n <= |blocks[src].seps|
      modifies this`blocks
      ensures var d, s := old(blocks)[dest].seps, old(blocks)[src].seps;
        blocks == old(blocks)
          [dest := Index(d[..dpos] + s[spos..spos + n] + d[dpos..])]
          [src := Index(s[..spos] + s[spos + n..])]
    {
      var d, s := blocks[dest].seps, blocks[src].seps;
      blocks := blocks[dest := Index(d[..dpos] + s[spos..spos + n] + d[dpos..])];
      blocks := blocks[src := Index(s[..spos] + s[spos + n..])];
    }

    method IndexChoose(id: nat, other: nat) returns (choose: int)
      requires IsIndex(id) && IsIndex(other)
      ensures choose > 0 <==> |blocks[id].seps| + |blocks[other].seps| <= Capacity().index
      ensures choose < 0 <==>
        && choose <= 0
        && !Near(|blocks[id].seps| * indexPair, |blocks[other].seps| * indexPair, BLOCK_SIZE - INDEX_BEGIN)
    {
      var maxSize := BLOCK_SIZE - INDEX_BEGIN;
      var size, otherSize := |blocks[id].seps| * indexPair, |blocks[other].seps| * indexPair;
      SlotsFit(|blocks[id].seps| + |blocks[other].seps|, indexPair, maxSize);
      assert size + otherSize == (|blocks[id].seps| + |blocks[other].seps|) * indexPair;
      if size + otherSize <= maxSize {
        return 1;
      }
      var difference := if size > otherSize then size - otherSize else otherSize - size;
      choose := if difference < maxSize / 2 then 0 else -1;
    }

    method IndexAverage(id: nat, other: nat)
      requires IsIndex(id) && IsIndex(other) && id != other
      modifies this`blocks
      ensures var a, d := old(blocks)[id].seps, old(blocks)[other].seps;
        var all, cut := a + d, AverageCut(|a|, |d|);
        blocks == old(blocks)[id := Index(all[..cut])][other := Index(all[cut..])]
    {
      var size, otherSize := |blocks[id].seps|, |blocks[other].seps|;
      var half := (size + otherSize) / 2;
      AverageSlices(blocks[id].seps, blocks[other].seps);
      if size > otherSize {
        MoveIndex(other, 0, id, half, size - half);
      } else {
        MoveIndex(id, size, other, 0, otherSize - half);
      }
    }

    method MoveIndexTail(id: nat, newId: nat, k: nat)
      requires IsIndex(id) && IsIndex(newId) && id != newId && blocks[newId].seps == []
      requires k <= |blocks[id].seps|
      modifies this`blocks
      ensures var o := old(blocks)[id].seps;
        blocks == old(blocks)[id := Index(o[..k])][newId := Index(o[k..])]
    {
      var size := |blocks[id].seps|;
      var move := size - k;
      MoveTail(blocks[id].seps, blocks[newId].seps, k);
      MoveIndex(newId, 0, id, size - move, move);
    }

    method IndexSplit(id: nat, newId: nat, sep: Sep) returns (ghost p: nat)
      requires IsIndex(id) && IsIndex(newId) && id != newId && blocks[newId].seps == []
      requires SepSorted(blocks[id].seps)
      modifies this`blocks
      ensures IsSepRank(old(blocks)[id].seps, sep.key, p)
      ensures var seps := old(blocks)[id].seps;
        var all, t := InsertAt(seps, p, sep), (|seps| + 1) / 2;
        blocks == old(blocks)[id := Index(all[..t])][newId := Index(all[t..])]
    {
      var size := |blocks[id].seps|;
      var target := (size + 1) / 2;
      var at := IndexLowerBound(id, sep.key);
      p := at;
      SplitSlices(blocks[id].seps, p, sep);
      if at < target {
        MoveIndexTail(id, newId, target - 1);
        IndexInsert(id, at, sep);
      } else {
        MoveIndexTail(id, newId, target);
        IndexInsert(newId, at - target, sep);
      }
    }
  }

  /** The block handed out by a pop is not serving as a record afterwards. */
  lemma PoppedIsNotServing<V>(b: Store<V>, head: seq<nat>, r: nat, stack: seq<nat>, index: nat)
    requires Records(b, head, r, stack) && NoDup(stack + [index])
    ensures index !in Serving(b, head, r, stack)
  {
    var s := stack + [index];
    assert forall i :: 0 <= i < |stack| ==> s[i] == stack[i] && s[i] != s[|stack|];
    assert NoDup(stack);
    ServingIsBuried(b, head, r, stack);
  }

  lemma GrowRecord<V>(b: Store<V>, b': Store<V>, head: seq<nat>, r: nat, stack: seq<nat>, id: nat)
    requires Records(b, head, r, stack) && NoDup(stack) && b[r].size < RECORD_CAP
    requires b' == b[r := Record(b[r].last, b[r].size + 1, b[r].slots[b[r].size := id])]
    ensures Records(b', head, r, stack + [id])
  {
    var n := |stack| - b[r].size;
    var s := stack + [id];
    assert s[..n] == stack[..n];
    if b[r].last != 0 {
      BelowRecord(b, b', head, r, stack);
    }
  }

  /** Changing the current record block leaves the part of the list below it alone. */
  lemma BelowRecord<V>(b: Store<V>, b': Store<V>, head: seq<nat>, r: nat, stack: seq<nat>)
    requires Records(b, head, r, stack) && NoDup(stack) && b[r].last != 0
    requires b'.Keys == b.Keys && forall x :: x in b && x != r ==> b'[x] == b[x]
    ensures b[r].last != r && Records(b', head, b[r].last, stack[..|stack| - b[r].size])
    ensures b'[b[r].last] == b[b[r].last]
  {
    var n := |stack| - b[r].size;
    var low, l := stack[..n], b[r].last;
    assert stack[n - 1] == r;
    assert low[|low| - b[l].size - 1] == l;
    assert forall i :: 0 <= i < |low| - 1 ==> low[i] == stack[i] && stack[i] != stack[n - 1];
    RecordsFrame(b, b', head, l, low);
  }

  lemma ShrinkRecord<V>(b: Store<V>, b': Store<V>, head: seq<nat>, r: nat, stack: seq<nat>)
    requires r != 0 && Records(b, head, r, stack) && NoDup(stack) && |head| == HEAD_CAP
    requires b' == b[r := Record(b[r].last, b[r].size - 1, b[r].slots[b[r].size - 1 := 0])]
    ensures FreeList(b', head, if b[r].size == 1 then b[r].last else r, stack[..|stack| - 1])
  {
    hide NoDup;
    if b[r].last != 0 {
      BelowRecord(b, b', head, r, stack);
    }
    if b[r].size > 1 {
      ShrinkTop(b, b', head, r, stack, stack[..|stack| - 1]);
    } else {
      ShrinkLast(b, b', head, r, stack, stack[..|stack| - 1]);
    }
  }

  /** The last entry of a record block went: the block below it on the chain is the record block again. */
  lemma ShrinkLast<V>(b: Store<V>, b': Store<V>, head: seq<nat>, r: nat, stack: seq<nat>, s: seq<nat>)
    requires Records(b, head, r, stack) && b[r].size == 1 && s == stack[..|stack| - 1] && |head| == HEAD_CAP
    requires b[r].last != 0 ==> Records(b', head, b[r].last, stack[..|stack| - b[r].size])
    ensures FreeList(b', head, b[r].last, s)
  {
    assert s == stack[..|stack| - b[r].size];
    RecordsBelow(b, head, r, stack);
    hide Records;
    assert head[..HEAD_CAP] == head;
  }

  /** The record block now being filled holds the top of the stack and is itself further down. */
  lemma RecordTop<V>(b: Store<V>, head: seq<nat>, r: nat, stack: seq<nat>)
    requires Records(b, head, r, stack)
    ensures r in b && b[r].Record? && 1 <= b[r].size <= |b[r].slots| && stack != [] && r in stack
    ensures b[r].slots[b[r].size - 1] == stack[|stack| - 1]
    ensures NoDup(stack) ==> r != stack[|stack| - 1]
  {
    var n := |stack| - b[r].size;
    assert stack[n..][b[r].size - 1] == stack[|stack| - 1];
    assert stack[n - 1] == r;
  }

  lemma BelowTop<V>(b: Store<V>, b': Store<V>, stack: seq<nat>, top: nat)
    requires NoDup(stack) && stack != [] && top == stack[|stack| - 1]
    requires forall x :: x in b && x != top ==> x in b' && b'[x] == b[x]
    ensures forall i :: 0 <= i < |stack| - 1 && stack[i] in b ==> stack[i] in b' && b'[stack[i]] == b[stack[i]]
  {
  }

  lemma RecordsBelow<V>(b: Store<V>, head: seq<nat>, r: nat, stack: seq<nat>)
    requires Records(b, head, r, stack)
    ensures b[r].last == 0 ==> stack[..|stack| - b[r].size] == head
  {
  }

  lemma ShrinkTop<V>(b: Store<V>, b': Store<V>, head: seq<nat>, r: nat, stack: seq<nat>, s: seq<nat>)
    requires Records(b, head, r, stack) && b[r].size > 1 && s == stack[..|stack| - 1]
    requires b' == b[r := Record(b[r].last, b[r].size - 1, b[r].slots[b[r].size - 1 := 0])]
    requires b[r].last != 0 ==> b[r].last != r && Records(b', head, b[r].last, stack[..|stack| - b[r].size])
    requires b[r].last != 0 ==> b[r].last in b && b'[b[r].last] == b[b[r].last]
    ensures Records(b', head, r, s)
  {
    var n, size := |stack| - b[r].size, b[r].size;
    TopSlices(stack, s, b[r].slots, n, size);
    RecordsOf(b', head, r, s, n);
  }

  /** The slices of the shorter stack. */
  lemma TopSlices(stack: seq<nat>, s: seq<nat>, slots: seq<nat>, n: nat, size: nat)
    requires 0 < n && n + size == |stack| && 0 < size <= |slots| && s == stack[..|stack| - 1]
    requires stack[n..] == slots[..size]
    ensures s[..n] == stack[..n] && s[n - 1] == stack[n - 1] && s[n..] == slots[size - 1 := 0][..size - 1]
  {
    assert forall i :: 0 <= i < size ==> stack[n..][i] == slots[i];
  }

  /** A record block in terms of its slices. */
  lemma RecordsOf<V>(b: Store<V>, head: seq<nat>, r: nat, stack: seq<nat>, n: nat)
    requires r in b && b[r].Record? && |b[r].slots| == RECORD_CAP
    requires 1 <= b[r].size <= RECORD_CAP && 0 < n && n + b[r].size == |stack|
    requires stack[n..] == b[r].slots[..b[r].size] && stack[n - 1] == r
    requires b[r].last == 0 ==> stack[..n] == head
    requires b[r].last != 0 ==> b[r].last in b && b[b[r].last].Record? && b[b[r].last].size == RECORD_CAP
    requires b[r].last != 0 ==> Records(b, head, b[r].last, stack[..n])
    ensures Records(b, head, r, stack)
  {
  }
}
