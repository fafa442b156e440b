/** Whole sessions with a tree: any sequence of inserts, erases and look-ups behaves like a map. */
module Sessions {
  import opened Options
  import opened SortedEntries
  import opened BlockStore
  import opened BPTrees

  datatype Op<V> = DoInsert(key: int, value: V) | DoErase(key: int) | DoFind(key: int)

  datatype Reply<V> = Done(ok: bool) | Found(value: Option<V>)

  function Step<V>(m: map<int, V>, op: Op<V>): (map<int, V>, Reply<V>) {
    match op
    case DoInsert(k, v) => if k in m then (m, Done(false)) else (m[k := v], Done(true))
    case DoErase(k) => if k in m then (m - {k}, Done(true)) else (m, Done(false))
    case DoFind(k) => (m, Found(if k in m then Some(m[k]) else None))
  }

  /** The map after ops, and what each of them answers. */
  function Run<V>(ops: seq<Op<V>>): (map<int, V>, seq<Reply<V>>) {
    if ops == [] then (map[], [])
    else
      var (m, replies) := Run(ops[..|ops| - 1]);
      var (m', reply) := Step(m, ops[|ops| - 1]);
      (m', replies + [reply])
  }

  /** A sorted sequence and a map say the same about every key. */
  ghost predicate Agree<V>(es: seq<Entry<V>>, m: map<int, V>) {
    Sorted(es) && forall k: int :: Lookup(es, k) == if k in m then Some(m[k]) else None
  }

  lemma AgreeHas<V>(es: seq<Entry<V>>, m: map<int, V>, key: int)
    requires Agree(es, m)
    ensures HasKey(es, key) <==> key in m
  {
    assert Lookup(es, key) == if key in m then Some(m[key]) else None;
  }

  lemma AgreeFind<V>(es: seq<Entry<V>>, m: map<int, V>, key: int)
    requires Agree(es, m)
    ensures Lookup(es, key) == if key in m then Some(m[key]) else None
  {
  }

  lemma AgreePut<V>(es: seq<Entry<V>>, m: map<int, V>, e: Entry<V>)
    requires Agree(es, m) && !HasKey(es, e.key)
    ensures Agree(Put(es, e), m[e.key := e.value])
  {
    hide Put, HasKey, Lookup, Sorted;
    PutSorted(es, e);
    forall k: int
      ensures Lookup(Put(es, e), k) == if k in m[e.key := e.value] then Some(m[e.key := e.value][k]) else None
    {
      PutIsMapUpdate(es, e, k);
    }
  }

  lemma AgreeDel<V>(es: seq<Entry<V>>, m: map<int, V>, key: int)
    requires Agree(es, m) && HasKey(es, key)
    ensures Agree(Del(es, key), m - {key})
  {
    hide Del, HasKey, Lookup, Sorted;
    DelSorted(es, key);
    forall k: int
      ensures Lookup(Del(es, key), k) == if k in m - {key} then Some((m - {key})[k]) else None
    {
      DelIsMapRemove(es, key, k);
    }
  }

  /** The pairs are the items of the map, no more and no fewer: one pair a key. */
  lemma {:induction false} AgreeCount<V>(es: seq<Entry<V>>, m: map<int, V>)
    requires Agree(es, m)
    ensures forall k: int, v: V :: Entry(k, v) in es <==> k in m && m[k] == v
    ensures |es| == |m|
    decreases |es|
  {
    forall k: int, v: V
      ensures Entry(k, v) in es <==> k in m && m[k] == v
    {
      LookupIsMembership(es, k, v);
    }
    if es == [] {
      assert m.Keys == {} by {
        forall k | k in m.Keys
          ensures false
        {
          AgreeFind(es, m, k);
        }
      }
    } else {
      var k := es[0].key;
      RankOf(es, 0);
      assert Del(es, k) == es[1..];
      AgreeDel(es, m, k);
      AgreeCount(Del(es, k), m - {k});
      assert k in m;
      assert (m - {k}).Keys == m.Keys - {k};
      assert |m.Keys| == |m.Keys - {k}| + 1;
    }
  }

  /** One request to the tree, whatever map it holds. */
  method Serve<V(==)>(tree: BPTree<V>, op: Op<V>, ghost m: map<int, V>) returns (reply: Reply<V>)
    requires tree.Valid() && Agree(tree.Pairs(), m)
    modifies tree, tree.impl
    ensures tree.Valid() && Agree(tree.Pairs(), Step(m, op).0) && reply == Step(m, op).1
  {
    hide Agree;
    ghost var es := tree.Pairs();
    match op {
      case DoInsert(k, v) =>
        AgreeHas(es, m, k);
        var ok := tree.Insert(k, v);
        if ok {
          AgreePut(es, m, Entry(k, v));
        }
        return Done(ok);
      case DoErase(k) =>
        AgreeHas(es, m, k);
        var ok := tree.Erase(k);
        if ok {
          AgreeDel(es, m, k);
        }
        return Done(ok);
      case DoFind(k) =>
        AgreeFind(es, m, k);
        var r := tree.Find(k);
        return Found(r);
    }
  }

  /** From an empty tree, every session answers as a map does and leaves the tree holding that map,
      with every block of the file accounted for. */
  method Session<V(==)>(ops: seq<Op<V>>, dataPair: nat, indexPair: nat)
    returns (tree: BPTree<V>, replies: seq<Reply<V>>)
    requires dataPair > 0 && indexPair > 0
    requires (BLOCK_SIZE - DATA_BEGIN) / dataPair >= 1 && (BLOCK_SIZE - INDEX_BEGIN) / indexPair >= 2
    ensures tree.Valid() && Agree(tree.Pairs(), Run(ops).0) && replies == Run(ops).1
    ensures tree.impl.total == 1 + tree.impl.validBlocks + tree.impl.deletedBlocks
  {
    tree := new BPTree(dataPair, indexPair);
    replies := [];
    var i := 0;
    while i < |ops|
      invariant 0 <= i <= |ops| && fresh(tree) && fresh(tree.impl) && tree.Valid()
      invariant Agree(tree.Pairs(), Run(ops[..i]).0) && replies == Run(ops[..i]).1
    {
      hide Agree;
      assert ops[..i + 1][..i] == ops[..i];
      var reply := Serve(tree, ops[i], Run(ops[..i]).0);
      replies := replies + [reply];
      i := i + 1;
    }
    assert ops[..|ops|] == ops;
    tree.Counted();
  }
}
