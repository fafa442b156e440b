/** The abstract value of a B+ tree: the strictly sorted sequence of its key-value pairs.
    Keys are integers; any total order that a test can exercise embeds in them. */
module SortedEntries {
  import opened Options

  datatype Entry<+V> = Entry(key: int, value: V)

  ghost predicate Sorted<V>(es: seq<Entry<V>>) {
    forall i, j :: 0 <= i < j < |es| ==> es[i].key < es[j].key
  }

  ghost predicate Below<V>(es: seq<Entry<V>>, k: int) {
    forall i :: 0 <= i < |es| ==> es[i].key < k
  }

  ghost predicate Above<V>(es: seq<Entry<V>>, k: int) {
    forall i :: 0 <= i < |es| ==> es[i].key > k
  }

  /** Position of the first pair whose key is not below k. */
  ghost function Rank<V>(es: seq<Entry<V>>, k: int): (p: nat)
    ensures p <= |es|
    ensures forall i :: 0 <= i < p ==> es[i].key < k
    ensures p < |es| ==> es[p].key >= k
  {
    if es == [] || es[0].key >= k then 0 else 1 + Rank(es[1..], k)
  }

  /** Position of the first pair whose key is above k. */
  ghost function Past<V>(es: seq<Entry<V>>, k: int): (p: nat)
    ensures p <= |es|
    ensures forall i :: 0 <= i < p ==> es[i].key <= k
    ensures p < |es| ==> es[p].key > k
  {
    if es == [] || es[0].key > k then 0 else 1 + Past(es[1..], k)
  }

  lemma PastUnique<V>(es: seq<Entry<V>>, k: int, p: nat)
    requires p <= |es|
    requires forall i :: 0 <= i < p ==> es[i].key <= k
    requires p < |es| ==> es[p].key > k
    ensures Past(es, k) == p
  {
    var q := Past(es, k);
    assert !(q < p);
    assert !(p < q);
  }

  ghost predicate HasKey<V>(es: seq<Entry<V>>, k: int) {
    var p := Rank(es, k);
    p < |es| && es[p].key == k
  }

  /** The sorted sequence with one more pair. */
  ghost function Put<V>(es: seq<Entry<V>>, e: Entry<V>): seq<Entry<V>> {
    var p := Rank(es, e.key);
    es[..p] + [e] + es[p..]
  }

  /** The sorted sequence without the pair of key k. */
  ghost function Del<V>(es: seq<Entry<V>>, k: int): seq<Entry<V>>
    requires HasKey(es, k)
  {
    var p := Rank(es, k);
    es[..p] + es[p + 1..]
  }

  /** What a sorted sequence maps k to. */
  ghost function Lookup<V>(es: seq<Entry<V>>, k: int): Option<V> {
    if HasKey(es, k) then Some(es[Rank(es, k)].value) else None
  }

  lemma RankUnique<V>(es: seq<Entry<V>>, k: int, p: nat)
    requires p <= |es|
    requires forall i :: 0 <= i < p ==> es[i].key < k
    requires p < |es| ==> es[p].key >= k
    ensures Rank(es, k) == p
  {
    var q := Rank(es, k);
    assert !(q < p);
    assert !(p < q);
  }

  lemma RankAbove<V>(es: seq<Entry<V>>, k: int)
    requires Sorted(es)
    ensures forall i :: Rank(es, k) <= i < |es| ==> es[i].key >= k
    ensures HasKey(es, k) <==> exists i :: 0 <= i < |es| && es[i].key == k
  {
    var p := Rank(es, k);
    forall i | p <= i < |es|
      ensures es[i].key >= k
    {
      assert i == p || es[p].key < es[i].key;
    }
  }

  lemma PutSorted<V>(es: seq<Entry<V>>, e: Entry<V>)
    requires Sorted(es) && !HasKey(es, e.key)
    ensures Sorted(Put(es, e))
  {
    RankAbove(es, e.key);
  }

  lemma DelSorted<V>(es: seq<Entry<V>>, k: int)
    requires Sorted(es) && HasKey(es, k)
    ensures Sorted(Del(es, k)) && |Del(es, k)| == |es| - 1
  {
  }

  /** What surrounds the place where k belongs does not take part in an operation on k. */
  lemma RankInside<V>(pre: seq<Entry<V>>, f: seq<Entry<V>>, post: seq<Entry<V>>, k: int)
    requires Below(pre, k) && Above(post, k)
    ensures Rank(pre + f + post, k) == |pre| + Rank(f, k)
    ensures HasKey(pre + f + post, k) <==> HasKey(f, k)
  {
    var all := pre + f + post;
    var p := Rank(f, k);
    forall i | 0 <= i < |pre| + p
      ensures all[i].key < k
    {
      if |pre| <= i { assert all[i] == f[i - |pre|]; }
    }
    if p < |f| {
      assert all[|pre| + p] == f[p];
    } else if |post| > 0 {
      assert all[|pre| + p] == post[0];
    }
    RankUnique(all, k, |pre| + p);
  }

  lemma SliceInside<V>(pre: seq<Entry<V>>, f: seq<Entry<V>>, post: seq<Entry<V>>, p: nat)
    requires p <= |f|
    ensures (pre + f + post)[..|pre| + p] == pre + f[..p]
    ensures (pre + f + post)[|pre| + p..] == f[p..] + post
  {
  }

  lemma Regroup<T>(a: seq<T>, b: seq<T>, m: seq<T>, c: seq<T>, d: seq<T>)
    ensures (a + b) + m + (c + d) == a + (b + m + c) + d
  {
  }

  lemma PutInside<V>(pre: seq<Entry<V>>, f: seq<Entry<V>>, post: seq<Entry<V>>, e: Entry<V>)
    requires Below(pre, e.key) && Above(post, e.key)
    ensures Put(pre + f + post, e) == pre + Put(f, e) + post
  {
    RankInside(pre, f, post, e.key);
    var p := Rank(f, e.key);
    SliceInside(pre, f, post, p);
    Regroup(pre, f[..p], [e], f[p..], post);
  }

  lemma PutFirst<V>(e: Entry<V>)
    ensures Put([], e) == [e]
  {
  }

  lemma DelInside<V>(pre: seq<Entry<V>>, f: seq<Entry<V>>, post: seq<Entry<V>>, k: int)
    requires Below(pre, k) && Above(post, k) && HasKey(f, k)
    ensures HasKey(pre + f + post, k)
    ensures Del(pre + f + post, k) == pre + Del(f, k) + post
  {
    hide Below, Above, Rank;
    RankInside(pre, f, post, k);
    var p := Rank(f, k);
    SliceInside(pre, f, post, p);
    SliceInside(pre, f, post, p + 1);
    Regroup(pre, f[..p], [], f[p + 1..], post);
  }

  lemma SortedParts<V>(a: seq<Entry<V>>, b: seq<Entry<V>>)
    requires Sorted(a + b)
    ensures Sorted(a) && Sorted(b)
    ensures forall i, j :: 0 <= i < |a| && 0 <= j < |b| ==> a[i].key < b[j].key
  {
    var s := a + b;
    forall i, j | 0 <= i < j < |b|
      ensures b[i].key < b[j].key
    {
      assert s[|a| + i] == b[i] && s[|a| + j] == b[j];
    }
    forall i, j | 0 <= i < j < |a|
      ensures a[i].key < a[j].key
    {
      assert s[i] == a[i] && s[j] == a[j];
    }
    forall i, j | 0 <= i < |a| && 0 <= j < |b|
      ensures a[i].key < b[j].key
    {
      assert s[i] == a[i] && s[|a| + j] == b[j];
    }
  }

  lemma SortedAround<V>(pre: seq<Entry<V>>, f: seq<Entry<V>>, post: seq<Entry<V>>)
    requires Sorted(pre + f + post)
    ensures Sorted(pre) && Sorted(f) && Sorted(post)
    ensures f != [] ==> Below(pre, f[0].key) && Above(post, f[|f| - 1].key)
  {
    SortedParts(pre + f, post);
    SortedParts(pre, f);
    if f != [] {
      assert (pre + f)[|pre| + |f| - 1] == f[|f| - 1];
    }
  }

  lemma BelowUp<V>(es: seq<Entry<V>>, j: int, k: int)
    requires Below(es, j) && j <= k
    ensures Below(es, k)
  {
  }

  lemma AboveFirst<V>(es: seq<Entry<V>>, k: int)
    requires Sorted(es) && (es == [] || es[0].key > k)
    ensures Above(es, k)
  {
    forall i | 0 <= i < |es|
      ensures es[i].key > k
    {
      assert i == 0 || es[0].key < es[i].key;
    }
  }

  // ---- the sorted sequence as a map ----

  lemma RankOf<V>(es: seq<Entry<V>>, i: nat)
    requires Sorted(es) && i < |es|
    ensures Rank(es, es[i].key) == i && Lookup(es, es[i].key) == Some(es[i].value)
  {
    RankUnique(es, es[i].key, i);
  }

  /** The pairs of a sorted sequence are exactly the pairs of its map. */
  lemma LookupIsMembership<V>(es: seq<Entry<V>>, k: int, v: V)
    requires Sorted(es)
    ensures Lookup(es, k) == Some(v) <==> Entry(k, v) in es
  {
    if Entry(k, v) in es {
      var i :| 0 <= i < |es| && es[i] == Entry(k, v);
      RankOf(es, i);
    }
  }

  lemma PutIsMapUpdate<V>(es: seq<Entry<V>>, e: Entry<V>, k: int)
    requires Sorted(es) && !HasKey(es, e.key)
    ensures Lookup(Put(es, e), k) == if k == e.key then Some(e.value) else Lookup(es, k)
  {
    var p, q := Rank(es, e.key), Rank(es, k);
    RankAbove(es, e.key);
    RankUnique(Put(es, e), k, if k <= e.key then q else q + 1);
  }

  lemma DelIsMapRemove<V>(es: seq<Entry<V>>, k: int, j: int)
    requires Sorted(es) && HasKey(es, k)
    ensures Lookup(Del(es, k), j) == if j == k then None else Lookup(es, j)
  {
    var p, q := Rank(es, k), Rank(es, j);
    RankAbove(es, j);
    RankUnique(Del(es, k), j, if j <= k then q else q - 1);
  }

  // ---- what the scans return ----

  /** At most limit results. */
  ghost function Limited<T>(s: seq<T>, limit: nat): (r: seq<T>)
    ensures r <= s && |r| <= limit && (|r| < limit ==> r == s)
  {
    if |s| <= limit then s else s[..limit]
  }

  ghost function Reversed<T>(s: seq<T>): (r: seq<T>)
    ensures |r| == |s| && forall i :: 0 <= i < |s| ==> r[i] == s[|s| - 1 - i]
  {
    seq(|s|, i requires 0 <= i < |s| => s[|s| - 1 - i])
  }

  lemma RankOrder<V>(es: seq<Entry<V>>, begin: int, end: int)
    requires begin <= end
    ensures Rank(es, begin) <= Rank(es, end)
  {
  }

  /** The pairs with begin <= key < end. */
  ghost function Between<V>(es: seq<Entry<V>>, begin: int, end: int): seq<Entry<V>> {
    if begin < end then RankOrder(es, begin, end); es[Rank(es, begin)..Rank(es, end)] else []
  }

  /** The slice holds the pairs of the half-open interval and no others. */
  lemma BetweenIsInterval<V>(es: seq<Entry<V>>, begin: int, end: int, e: Entry<V>)
    requires Sorted(es)
    ensures e in Between(es, begin, end) <==> e in es && begin <= e.key < end
  {
    hide Sorted, Rank, HasKey;
    RankAbove(es, begin);
    RankAbove(es, end);
    if begin < end {
      RankOrder(es, begin, end);
      InSlice(es, Rank(es, begin), Rank(es, end), e);
    }
  }

  lemma InSlice<T>(s: seq<T>, from: nat, to: nat, e: T)
    requires from <= to <= |s|
    ensures e in s[from..to] <==> exists i :: from <= i < to && s[i] == e
  {
    if e in s[from..to] {
      var i :| 0 <= i < to - from && s[from..to][i] == e;
      assert s[from + i] == e;
    }
    if i :| from <= i < to && s[i] == e {
      assert s[from..to][i - from] == e;
    }
  }

  lemma NoResults<T>(s: seq<T>, limit: nat)
    requires s == []
    ensures Limited(s, limit) == [] && Limited(Reversed(s), limit) == []
  {
  }

  lemma Collected<T>(all: seq<T>, from: nat, n: nat, to: nat, limit: nat)
    requires from <= n <= to <= |all|
    requires n - from == limit || (n == to && n - from <= limit)
    ensures Limited(all[from..to], limit) == all[from..n]
  {
  }

  lemma OneMore<T>(all: seq<T>, from: nat, n: nat)
    requires from <= n < |all|
    ensures all[from..n + 1] == all[from..n] + [all[n]]
  {
  }

  lemma InsideIsBelow<V>(es: seq<Entry<V>>, end: int, n: nat)
    requires Sorted(es) && n <= Rank(es, end) && n < |es|
    ensures es[n].key < end <==> n < Rank(es, end)
  {
  }

  lemma CollectedBack<T>(all: seq<T>, n: nat, limit: nat)
    requires n <= |all|
    requires |all| - n == limit || (n == 0 && |all| <= limit)
    ensures Limited(Reversed(all), limit) == Reversed(all[n..])
  {
  }

  lemma OneBack<T>(all: seq<T>, n: nat)
    requires 0 < n <= |all|
    ensures Reversed(all[n - 1..]) == Reversed(all[n..]) + [all[n - 1]]
  {
  }
}
