/** The link log: every record keeps the place of the previous record of its node, and a query follows
    the chains of many nodes backwards at once. */
module LinkLogs {

  const MAX_UINT: nat := 0xFFFF_FFFF
  const LOG_FILE_LIMIT_SIZE: nat := 0x1000_0000
  /** No record is longer than this, header included. */
  const MAX_RECORD: nat := 0xFFFF
  /** The part of a header that holds the size and the place of the previous record. */
  const HEADER_OFFSET3: nat := 15

  /** A file, named by its creation time, and an offset in it. */
  datatype Loc = Loc(file: nat, index: nat)

  /** size: header and text; prev: the previous record of the same node, with MAX_UINT for none. */
  datatype Record = Record(size: nat, prev: Loc)

  predicate Nowhere(l: Loc) {
    l.index == MAX_UINT
  }

  predicate Before(a: Loc, b: Loc) {
    a.file < b.file || (a.file == b.file && a.index < b.index)
  }

  ghost predicate Descending(s: seq<Loc>) {
    forall i, j :: 0 <= i < j < |s| ==> Before(s[j], s[i])
  }

  ghost function Elements(s: seq<Loc>): set<Loc> {
    set l | l in s
  }

  // ---- chains ----

  /** The i-th record of a chain is in the log and points at the next, the last one nowhere. */
  ghost predicate Points(log: map<Loc, Record>, chain: seq<Loc>, i: nat)
    requires i < |chain|
  {
    && chain[i] in log && chain[i].file > 0 && !Nowhere(chain[i]) && HEADER_OFFSET3 <= log[chain[i]].size <= MAX_RECORD
    && if i + 1 < |chain| then log[chain[i]].prev == chain[i + 1] else Nowhere(log[chain[i]].prev)
  }

  /** The records of one node, newest first. */
  ghost predicate Linked(log: map<Loc, Record>, chain: seq<Loc>) {
    forall i :: 0 <= i < |chain| ==> Points(log, chain, i)
  }

  ghost predicate Chain(log: map<Loc, Record>, chain: seq<Loc>) {
    Linked(log, chain) && Descending(chain)
  }

  ghost predicate Disjoint(chains: seq<seq<Loc>>) {
    forall i, j :: 0 <= i < j < |chains| ==> Elements(chains[i]) !! Elements(chains[j])
  }

  /** The records still to be delivered. */
  ghost function Pending(chains: seq<seq<Loc>>): set<Loc> {
    set i, l | 0 <= i < |chains| && l in chains[i] :: l
  }

  /** The newest record of every chain that has one left. */
  ghost function Heads(chains: seq<seq<Loc>>): set<Loc> {
    set i | 0 <= i < |chains| && chains[i] != [] :: chains[i][0]
  }

  /** Taking the head off chain i. */
  lemma Beheaded(chains: seq<seq<Loc>>, i: nat)
    requires i < |chains| && chains[i] != [] && Disjoint(chains) && chains[i][0] !in chains[i][1..]
    ensures var rest := chains[i := chains[i][1..]];
      && Pending(chains) == Pending(rest) + {chains[i][0]}
      && Heads(rest) == Heads(chains) - {chains[i][0]} + (if |chains[i]| > 1 then {chains[i][1]} else {})
    ensures chains[i][0] in Heads(chains)
    ensures (|chains[i]| > 1 ==> chains[i][1] in Pending(chains) && chains[i][1] !in Heads(chains))
  {
    var c := chains[i];
    var rest := chains[i := c[1..]];
    assert forall l :: l in c <==> l == c[0] || l in c[1..];
    assert forall k :: 0 <= k < |chains| && k != i ==> rest[k] == chains[k];
    Apart(chains, i);
    forall l | l in Pending(chains)
      ensures l in Pending(rest) + {c[0]}
    {
      var k :| 0 <= k < |chains| && l in chains[k];
      assert k != i ==> l in rest[k];
      assert k == i && l != c[0] ==> l in rest[i];
    }
    forall l | l in Pending(rest)
      ensures l in Pending(chains)
    {
      var k :| 0 <= k < |rest| && l in rest[k];
      assert l in chains[k];
    }
    forall l | l in Heads(chains) && l != c[0]
      ensures l in Heads(rest)
    {
      var k :| 0 <= k < |chains| && chains[k] != [] && chains[k][0] == l;
      assert k != i && rest[k] == chains[k];
    }
    forall l | l in Heads(rest)
      ensures l in Heads(chains) - {c[0]} + (if |c| > 1 then {c[1]} else {})
    {
      var k :| 0 <= k < |rest| && rest[k] != [] && rest[k][0] == l;
      if k != i {
        assert chains[k][0] in chains[k] && l != c[0];
        assert l in Heads(chains);
      }
    }
    if |c| > 1 {
      assert rest[i] != [] && rest[i][0] == c[1];
      assert c[1] in Heads(rest) && c[1] in c && c[1] in c[1..];
      assert forall k :: 0 <= k < |chains| && chains[k] != [] && k != i ==>
        chains[k][0] in chains[k] && chains[k][0] != c[1];
    }
  }

  /** A record is on one chain only. */
  lemma Apart(chains: seq<seq<Loc>>, i: nat)
    requires i < |chains| && Disjoint(chains)
    ensures forall l, k :: l in chains[i] && 0 <= k < |chains| && k != i ==> l !in chains[k]
  {
    forall l, k | l in chains[i] && 0 <= k < |chains| && k != i
      ensures l !in chains[k]
    {
      assert l in Elements(chains[i]);
      assert Elements(chains[if i < k then i else k]) !! Elements(chains[if i < k then k else i]);
      assert l !in Elements(chains[k]);
    }
  }

  /** The greatest head is the greatest of all records still to come. */
  lemma TopIsGreatest(log: map<Loc, Record>, chains: seq<seq<Loc>>, top: Loc)
    requires forall i :: 0 <= i < |chains| ==> Chain(log, chains[i])
    requires forall l :: l in Heads(chains) ==> !Before(top, l)
    ensures forall l :: l in Pending(chains) ==> l == top || Before(l, top)
  {
    forall l | l in Pending(chains)
      ensures l == top || Before(l, top)
    {
      var i :| 0 <= i < |chains| && l in chains[i];
      var j :| 0 <= j < |chains[i]| && chains[i][j] == l;
      assert chains[i][0] in Heads(chains);
    }
  }

  lemma ChainTail(log: map<Loc, Record>, c: seq<Loc>)
    requires Chain(log, c) && c != []
    ensures Chain(log, c[1..]) && c[0] !in c[1..]
  {
    var d := c[1..];
    forall k | 0 <= k < |d|
      ensures Points(log, d, k) && Before(d[k], c[0])
    {
      assert Points(log, c, k + 1);
    }
    assert forall a, b :: 0 <= a < b < |d| ==> d[a] == c[a + 1] && d[b] == c[b + 1];
  }

  /** A head that was taken does not come back. */
  lemma TakenOnce(log: map<Loc, Record>, chains: seq<seq<Loc>>, i: nat)
    requires (forall k :: 0 <= k < |chains| ==> Chain(log, chains[k])) && Disjoint(chains) && i < |chains|
    requires chains[i] != []
    ensures var rest := chains[i := chains[i][1..]];
      && (forall k :: 0 <= k < |rest| ==> Chain(log, rest[k])) && Disjoint(rest) && chains[i][0] !in Pending(rest)
    ensures forall k :: 0 <= k < |chains| && chains[k] != [] && chains[k][0] == chains[i][0] ==> k == i
  {
    var rest := chains[i := chains[i][1..]];
    var c := chains[i];
    assert Chain(log, c);
    ChainTail(log, c);
    assert forall k :: 0 <= k < |rest| && k != i ==> rest[k] == chains[k];
    assert Elements(rest[i]) <= Elements(c);
    Apart(chains, i);
    assert c[0] in chains[i];
    forall k | 0 <= k < |rest|
      ensures c[0] !in rest[k]
    {
      assert k != i ==> rest[k] == chains[k];
    }
  }

  // ---- the query ----

  ghost function Bytes(log: map<Loc, Record>, s: seq<Loc>): nat
    requires forall l :: l in s ==> l in log
  {
    if s == [] then 0 else Bytes(log, s[..|s| - 1]) + log[s[|s| - 1]].size
  }

  lemma {:induction false} GreatestExists(q: multiset<Loc>) returns (top: Loc)
    requires |q| > 0
    ensures top in q && forall l :: l in q ==> !Before(top, l)
    decreases |q|
  {
    var x :| x in q;
    if |q| == 1 {
      assert q == multiset{x} + (q - multiset{x});
      top := x;
      assert forall l :: l in q ==> l == x;
    } else {
      var y := GreatestExists(q - multiset{x});
      top := if Before(y, x) then x else y;
      assert forall l :: l in q ==> l == x || l in q - multiset{x};
    }
  }

  /** The heap holds the heads of well-formed chains. */
  ghost predicate Heap(log: map<Loc, Record>, locations: multiset<Loc>, chains: seq<seq<Loc>>) {
    && locations == multiset(Heads(chains))
    && (forall i :: 0 <= i < |chains| ==> Chain(log, chains[i])) && Disjoint(chains)
  }

  lemma Exchanged(h: set<Loc>, a: Loc, b: Loc)
    requires a in h && b !in h
    ensures multiset(h) - multiset{a} + multiset{b} == multiset(h - {a} + {b})
  {
  }

  lemma Removed(h: set<Loc>, a: Loc)
    requires a in h
    ensures multiset(h) - multiset{a} == multiset(h - {a})
  {
  }

  /** Taking the head off a chain, and putting what it points at into the heap. */
  lemma HeapStep(log: map<Loc, Record>, locations: multiset<Loc>, chains: seq<seq<Loc>>, i: nat, prev: Loc)
    requires Heap(log, locations, chains) && i < |chains| && chains[i] != []
    requires if |chains[i]| > 1 then prev == chains[i][1] && !Nowhere(prev) else Nowhere(prev)
    ensures var top := chains[i][0]; var rest := chains[i := chains[i][1..]];
      && Heap(log, if Nowhere(prev) then locations - multiset{top}
           else locations - multiset{top} + multiset{prev}, rest)
      && Pending(chains) == Pending(rest) + {top} && top !in Pending(rest)
  {
    var top := chains[i][0];
    ChainTail(log, chains[i]);
    Beheaded(chains, i);
    TakenOnce(log, chains, i);
    hide Heads, Pending, Disjoint, Chain;
    if Nowhere(prev) {
      Removed(Heads(chains), top);
    } else {
      Exchanged(Heads(chains), top, prev);
    }
  }

  /** Of the records left, the one to be delivered next. */
  ghost predicate Newest(log: map<Loc, Record>, left: set<Loc>, l: Loc) {
    l in left && l in log && forall m :: m in left ==> m == l || Before(m, l)
  }

  lemma OlderLeft(log: map<Loc, Record>, left: set<Loc>, top: Loc, rest: set<Loc>)
    requires Newest(log, left, top) && left == rest + {top} && top !in rest
    ensures forall l :: l in rest ==> Before(l, top)
  {
  }

  /** A set of chains being read: the heap of their heads, and the open file with the place where it
      is thought to be (pos) and where it is (filePos). */
  class QuerySet {
    var locations: multiset<Loc>
    var currentFile: nat
    var pos: int
    var filePos: int
    ghost var chains: seq<seq<Loc>>

    ghost predicate Valid(log: map<Loc, Record>)
      reads this
    {
      Heap(log, locations, chains) && pos == filePos
    }

    ghost function Left(): set<Loc>
      reads this
    {
      Pending(chains)
    }

    constructor (locations: multiset<Loc>, ghost chains: seq<seq<Loc>>, ghost log: map<Loc, Record>)
      requires locations == multiset(Heads(chains)) && Disjoint(chains)
      requires forall i :: 0 <= i < |chains| ==> Chain(log, chains[i])
      ensures Valid(log) && this.chains == chains && Left() == Pending(chains)
    {
      this.locations, this.chains := locations, chains;
      currentFile, pos, filePos := 0, 0, 0;
    }

    method Top() returns (top: Loc)
      requires |locations| > 0
      ensures top in locations && forall l :: l in locations ==> !Before(top, l)
    {
      ghost var t := GreatestExists(locations);
      top :| top in locations && forall l :: l in locations ==> !Before(top, l);
    }

    /** Move the open file to the newest record and read the fixed part of its header. */
    method PrepareReadALog(log: map<Loc, Record>) returns (ok: bool, top: Loc, header: Record)
      requires Valid(log) && |locations| > 0
      modifies this`currentFile, this`pos, this`filePos
      ensures Valid(log) && ok && top in locations && top in log && header == log[top]
      ensures forall l :: l in locations ==> !Before(top, l)
      ensures currentFile == top.file && filePos == top.index + HEADER_OFFSET3
    {
      top := Top();
      HeadInLog(log, top);
      if top.file != currentFile {
        currentFile := top.file;
        pos, filePos := 0, 0;
      }
      filePos := filePos + (top.index - pos);
      pos := top.index;
      var at := Loc(currentFile, filePos);
      if at !in log {
        return false, top, Record(0, top);
      }
      header := log[at];
      filePos := filePos + HEADER_OFFSET3;
      pos := pos + HEADER_OFFSET3;
      ok := true;
    }

    lemma HeadInLog(log: map<Loc, Record>, top: Loc)
      requires Valid(log) && top in locations
      ensures top in log && top.file > 0 && HEADER_OFFSET3 <= log[top].size <= MAX_RECORD
    {
      assert top in Heads(chains);
      var i :| 0 <= i < |chains| && chains[i] != [] && chains[i][0] == top;
      assert Chain(log, chains[i]) && Points(log, chains[i], 0);
    }

    /** One record: -1 on a read error, 1 if it does not fit, 0 if it was copied out. */
    method QueryingALog(log: map<Loc, Record>, limit: nat) returns (ret: int, top: Loc, written: nat)
      requires Valid(log) && |locations| > 0
      modifies this
      ensures Valid(log) && 0 <= ret <= 1
      ensures top in log && Newest(log, old(Left()), top) && (ret == 1 <==> log[top].size > limit)
      ensures ret == 1 ==> chains == old(chains) && locations == old(locations)
      ensures ret == 0 ==> written == log[top].size && old(Left()) == Left() + {top} && top !in Left()
    {
      hide Heap, Pending, Before, Points, Chain, Nowhere, Heads, Disjoint, Elements, Newest;
      var ok, header;
      ok, top, header := PrepareReadALog(log);
      written := 0;
      if !ok {
        ret := -1;
        return;
      }
      ghost var i := ChainOf(log, top);
      if header.size > limit {
        return 1, top, 0;
      }
      var needWrite := header.size - HEADER_OFFSET3;
      filePos := filePos + needWrite;
      pos := pos + needWrite;
      written := header.size;
      HeapStep(log, locations, chains, i, header.prev);
      locations := locations - multiset{top};
      if !Nowhere(header.prev) {
        locations := locations + multiset{header.prev};
      }
      chains := chains[i := chains[i][1..]];
      ret := 0;
    }

    lemma ChainOf(log: map<Loc, Record>, top: Loc) returns (i: nat)
      requires Valid(log) && top in locations && forall l :: l in locations ==> !Before(top, l)
      ensures i < |chains| && chains[i] != [] && chains[i][0] == top && Chain(log, chains[i])
      ensures Newest(log, Left(), top)
      ensures top in log &&
        (if |chains[i]| > 1 then log[top].prev == chains[i][1] && !Nowhere(log[top].prev) else Nowhere(log[top].prev))
    {
      assert top in Heads(chains);
      i :| 0 <= i < |chains| && chains[i] != [] && chains[i][0] == top;
      assert Points(log, chains[i], 0);
      if |chains[i]| > 1 {
        assert Points(log, chains[i], 1);
      }
      assert top in chains[i];
      assert forall l :: l in Heads(chains) ==> l in locations;
      TopIsGreatest(log, chains, top);
    }

    /** Copy out records, newest first, as many as fit; more says that the set is not used up. */
    method Query(log: map<Loc, Record>, limit0: nat) returns (out: seq<Loc>, written: nat, more: bool)
      requires Valid(log)
      modifies this
      ensures Valid(log) && Descending(out) && (forall l :: l in out ==> l in log)
      ensures written <= limit0 && written == Bytes(log, out)
      ensures old(Left()) == Elements(out) + Left() && Elements(out) !! Left()
      ensures forall l, d :: l in Left() && d in out ==> Before(l, d)
      ensures more <==> Left() != {}
      ensures limit0 > MAX_RECORD && old(Left()) != {} ==> out != []
      ensures more ==> exists l :: Newest(log, Left(), l) && log[l].size > limit0 - written
    {
      hide Disjoint, Descending, Pending, Heads, Chain, Valid;
      var limit := limit0;
      out, written := [], 0;
      assert Descending(out) by { NoneDescending(); }
      HeapEmpty(log);
      while limit > 0 && |locations| > 0
        invariant Valid(log) && Descending(out) && (forall l :: l in out ==> l in log)
        invariant written + limit == limit0 && written == Bytes(log, out)
        invariant old(Left()) == Elements(out) + Left() && Elements(out) !! Left()
        invariant forall l, d :: l in Left() && d in out ==> Before(l, d)
        invariant |locations| == 0 <==> Left() == {}
        invariant out == [] ==> limit == limit0 && Left() == old(Left())
        decreases limit
      {
        ghost var left := Left();
        var ret, top, size := QueryingALog(log, limit);
        HeapEmpty(log);
        if ret < 0 {
          return out, written, false;
        }
        if ret > 0 {
          assert Newest(log, Left(), top);
          return out, written, true;
        }
        OlderLeft(log, left, top, Left());
        OneMore(log, out, top);
        out := out + [top];
        written := written + size;
        limit := limit - size;
      }
      more := |locations| > 0;
      if more {
        ghost var top := NewestLeft(log);
      }
    }

    lemma NewestLeft(log: map<Loc, Record>) returns (top: Loc)
      requires Valid(log) && |locations| > 0
      ensures Newest(log, Left(), top) && log[top].size > 0
    {
      top := GreatestExists(locations);
      var i := ChainOf(log, top);
      HeadInLog(log, top);
    }

    lemma NoneDescending()
      ensures Descending([]) && Elements([]) == {}
    {
    }

    lemma HeapEmpty(log: map<Loc, Record>)
      requires Valid(log)
      ensures |locations| == 0 <==> Left() == {}
      ensures forall l :: l in Left() ==> l in log && 0 < log[l].size <= MAX_RECORD
    {
      forall l | l in Left()
        ensures |locations| > 0
      {
        var i :| 0 <= i < |chains| && l in chains[i];
        assert chains[i][0] in Heads(chains);
        assert chains[i][0] in locations;
      }
      if |locations| > 0 {
        var l :| l in locations;
        assert l in Heads(chains);
        var i :| 0 <= i < |chains| && chains[i] != [] && chains[i][0] == l;
        assert l in chains[i];
        assert l in Left();
      }
      forall l | l in Left()
        ensures l in log && 0 < log[l].size <= MAX_RECORD
      {
        var i :| 0 <= i < |chains| && l in chains[i];
        var j :| 0 <= j < |chains[i]| && chains[i][j] == l;
        assert Chain(log, chains[i]) && Points(log, chains[i], j);
      }
    }

    lemma OneMore(log: map<Loc, Record>, out: seq<Loc>, top: Loc)
      requires Descending(out) && top in log && (forall l :: l in out ==> l in log)
      requires forall d :: d in out ==> Before(top, d)
      ensures Descending(out + [top]) && (forall l :: l in out + [top] ==> l in log)
      ensures Bytes(log, out + [top]) == Bytes(log, out) + log[top].size
      ensures Elements(out + [top]) == Elements(out) + {top}
    {
      assert (out + [top])[..|out|] == out;
    }

    /** Queries repeated with one buffer size deliver every record of the set, newest first, each once. */
    method QueryAll(log: map<Loc, Record>, limit: nat) returns (all: seq<Loc>)
      requires Valid(log) && limit > MAX_RECORD
      modifies this
      ensures Descending(all) && Elements(all) == old(Left())
    {
      hide Valid, Descending, Pending, Elements, Before;
      all := [];
      NoneDescending();
      var more := true;
      while more
        invariant Valid(log) && Descending(all)
        invariant old(Left()) == Elements(all) + Left() && Elements(all) !! Left()
        invariant forall l, d :: l in Left() && d in all ==> Before(l, d)
        invariant !more ==> Left() == {}
        decreases |Left()|, more
      {
        ghost var left := Left();
        var out, written;
        out, written, more := Query(log, limit);
        Shrinks(left, out, Left());
        Joined(all, out, left, Left());
        all := all + out;
      }
    }

    lemma Shrinks(was: set<Loc>, out: seq<Loc>, left: set<Loc>)
      requires was == Elements(out) + left && Elements(out) !! left && (was != {} ==> out != [])
      ensures |left| <= |was| && (was != {} ==> |left| < |was|)
    {
      assert |was| == |Elements(out)| + |left|;
      if out != [] {
        assert out[0] in Elements(out);
      }
    }

    lemma Joined(a: seq<Loc>, b: seq<Loc>, was: set<Loc>, left: set<Loc>)
      requires Descending(a) && Descending(b) && was == Elements(b) + left && Elements(a) !! was && Elements(b) !! left
      requires forall l, d :: l in was && d in a ==> Before(l, d)
      requires forall l, d :: l in left && d in b ==> Before(l, d)
      ensures Descending(a + b) && Elements(a + b) == Elements(a) + Elements(b) && Elements(a + b) !! left
      ensures Elements(a) + was == Elements(a + b) + left
      ensures forall l, d :: l in left && d in a + b ==> Before(l, d)
    {
      assert forall l :: l in b ==> l in was;
    }
  }

  /** What was logged since does not disturb a query under way. */
  lemma QueryGoesOn(q: QuerySet, log: map<Loc, Record>, more: map<Loc, Record>)
    requires q.Valid(log) && forall l :: l in log ==> l in more && more[l] == log[l]
    ensures q.Valid(more)
  {
    forall i | 0 <= i < |q.chains|
      ensures Chain(more, q.chains[i])
    {
      ChainGrows(log, more, q.chains[i]);
    }
  }

  lemma ChainGrows(log: map<Loc, Record>, more: map<Loc, Record>, chain: seq<Loc>)
    requires Chain(log, chain) && forall l :: l in log ==> l in more && more[l] == log[l]
    ensures Chain(more, chain)
  {
    forall i | 0 <= i < |chain|
      ensures Points(more, chain, i)
    {
      assert Points(log, chain, i);
    }
  }

  // ---- the writing side ----

  /** A query that starts at a place finds all of a chain. */
  ghost predicate KnownFrom(log: map<Loc, Record>, at: Loc, chain: seq<Loc>) {
    Chain(log, chain) && if chain == [] then Nowhere(at) else at == chain[0]
  }

  /** The index knows the chain of every node, and no record is on two of them. */
  ghost predicate Indexed<K(!new)>(log: map<Loc, Record>, latest: map<K, Loc>, chains: map<K, seq<Loc>>) {
    && chains.Keys == latest.Keys
    && (forall k :: k in latest ==> KnownFrom(log, latest[k], chains[k]))
    && forall j, k :: j in latest && k in latest && j != k ==> Elements(chains[j]) !! Elements(chains[k])
  }

  class LinkLogStorage<K(==, !new)> {
    /** Where each record of a node really lies. */
    var files: map<Loc, Record>
    /** The last of the records of files to be written: its name, and its length so far. */
    var file: nat
    var index: nat
    /** The place of the newest record of each node, as the cached index has it. */
    var latest: map<K, Loc>
    ghost var chains: map<K, seq<Loc>>

    ghost predicate Valid()
      reads this
    {
      && file > 0 && index < LOG_FILE_LIMIT_SIZE + MAX_RECORD
      && (forall l :: l in files ==> Before(l, Loc(file, index)))
      && Indexed(files, latest, chains)
    }

    /** A query that starts from what the index says about k finds all records of k. */
    ghost predicate Known(k: K)
      reads this
      requires k in latest && k in chains
    {
      KnownFrom(files, latest[k], chains[k])
    }

    constructor (file: nat)
      requires file > 0
      ensures Valid() && files == map[] && latest == map[]
    {
      files, latest, chains := map[], map[], map[];
      this.file, index := file, 0;
    }

    method CreateLogger(key: K) returns (ok: bool)
      requires Valid()
      modifies this`latest, this`chains
      ensures Valid() && (ok <==> key !in old(latest))
      ensures ok ==> chains == old(chains)[key := []]
      ensures !ok ==> chains == old(chains) && latest == old(latest)
    {
      if key in latest {
        return false;
      }
      latest := latest[key := Loc(0, MAX_UINT)];
      chains := chains[key := []];
      ok := true;
    }

    /** Put the place of the previous record into the header, and the place of this one into the index. */
    method HandleALog(key: K) returns (prev: Loc)
      requires key in latest
      modifies this`latest
      ensures prev == old(latest)[key] && latest == old(latest)[key := Loc(file, index)]
    {
      prev := latest[key];
      latest := latest[key := Loc(file, index)];
    }

    /** Account for size more bytes, in a new file if the last one is full; now is later than its name. */
    method AddRecord(size: nat, now: nat)
      requires index < LOG_FILE_LIMIT_SIZE + MAX_RECORD && size <= MAX_RECORD && now > file
      modifies this`file, this`index
      ensures index >= size && index < LOG_FILE_LIMIT_SIZE + MAX_RECORD
      ensures old(index) < LOG_FILE_LIMIT_SIZE ==> file == old(file) && index == old(index) + size
      ensures old(index) >= LOG_FILE_LIMIT_SIZE ==> file == now && index == size
    {
      if index >= LOG_FILE_LIMIT_SIZE {
        file, index := now, 0;
      }
      index := index + size;
    }

    /** A message other than a log entry takes up space only. */
    method Skip(size: nat, now: nat)
      requires Valid() && size <= MAX_RECORD && now > file
      modifies this`file, this`index
      ensures Valid() && index >= size
      ensures old(index) < LOG_FILE_LIMIT_SIZE ==> file == old(file) && index == old(index) + size
      ensures old(index) >= LOG_FILE_LIMIT_SIZE ==> file == now && index == size
    {
      AddRecord(size, now);
    }

    /** A log entry of a node. Its record continues the chain of the node exactly if the current file is
        still below its limit; otherwise the index points to where no record lies. */
    method HandleLog(key: K, size: nat, now: nat)
      requires Valid() && key in latest && HEADER_OFFSET3 <= size <= MAX_RECORD && now > file
      modifies this
      ensures Valid() <==> old(index) < LOG_FILE_LIMIT_SIZE
      ensures old(index) < LOG_FILE_LIMIT_SIZE ==>
        chains == old(chains)[key := [old(Loc(file, index))] + old(chains)[key]]
      ensures old(index) >= LOG_FILE_LIMIT_SIZE ==> key in latest && !Nowhere(latest[key]) && latest[key] !in files
      ensures index >= size && files == old(files)[Loc(file, index - size) := Record(size, old(latest)[key])]
      ensures forall l :: l in old(files) ==> l in files && files[l] == old(files)[l]
    {
      hide Indexed, Before, Nowhere;
      KnownKeys();
      ghost var was, at, c := files, Loc(file, index), chains[key];
      Above();
      var prev := HandleALog(key);
      AddRecord(size, now);
      files := files[Loc(file, index - size) := Record(size, prev)];
      LaterThan(was, at, Loc(file, index - size), Loc(file, index));
      if Loc(file, index - size) == at {
        IndexedMore(was, old(latest), chains, key, at, Record(size, prev));
      } else {
        NotIndexed(files, latest, chains, key, c, at);
      }
      chains := chains[key := [at] + c];
    }

    lemma Above()
      requires Valid()
      ensures Loc(file, index) !in files && !Nowhere(Loc(file, index))
    {
    }

    lemma LaterThan(log: map<Loc, Record>, at: Loc, place: Loc, next: Loc)
      requires forall l :: l in log ==> Before(l, at)
      requires place.file == next.file && place.index < next.index
      requires place == at || at.file < place.file
      ensures forall l :: l in log || l == place ==> Before(l, next)
      ensures place !in log && at !in log
    {
    }

    lemma StillApart(log: map<Loc, Record>, a: seq<Loc>, c: seq<Loc>, at: Loc)
      requires Chain(log, a) && at !in log && Elements(a) !! Elements(c)
      ensures Elements(a) !! Elements([at] + c)
    {
      InLog(log, a);
    }

    lemma HeadInLog(log: map<Loc, Record>, chain: seq<Loc>)
      requires chain != []
      ensures Chain(log, chain) ==> chain[0] in log
    {
      if Chain(log, chain) {
        assert Points(log, chain, 0);
      }
    }

    /** One more record at a new place keeps the index right. */
    lemma IndexedMore(log: map<Loc, Record>, latest: map<K, Loc>, chains: map<K, seq<Loc>>, key: K, at: Loc,
                      record: Record)
      requires Indexed(log, latest, chains) && key in latest && key in chains && record.prev == latest[key]
      requires (forall l :: l in log ==> Before(l, at)) && at.file > 0 && at !in log && !Nowhere(at)
      requires HEADER_OFFSET3 <= record.size <= MAX_RECORD
      ensures Indexed(log[at := record], latest[key := at], chains[key := [at] + chains[key]])
    {
      hide Chain, Elements, Before, Nowhere;
      var c, more := chains[key], chains[key := [at] + chains[key]];
      Continued(log, c, at, record);
      forall k | k in latest && k != key
        ensures KnownFrom(log[at := record], latest[k], more[k]) && Elements(more[k]) !! Elements(more[key])
      {
        ChainGrows(log, log[at := record], chains[k]);
        StillApart(log, chains[k], c, at);
      }
    }

    lemma NotIndexed(log: map<Loc, Record>, latest: map<K, Loc>, chains: map<K, seq<Loc>>, key: K, c: seq<Loc>, at: Loc)
      requires key in latest && at !in log
      ensures !Indexed(log, latest, chains[key := [at] + c])
    {
      HeadInLog(log, [at] + c);
    }

    lemma InLog(log: map<Loc, Record>, chain: seq<Loc>)
      requires Chain(log, chain)
      ensures forall l :: l in chain ==> l in log
    {
      forall i | 0 <= i < |chain|
        ensures chain[i] in log
      {
        assert Points(log, chain, i);
      }
    }

    lemma Continued(log: map<Loc, Record>, chain: seq<Loc>, at: Loc, record: Record)
      requires Chain(log, chain) && (forall l :: l in log ==> Before(l, at)) && at.file > 0 && !Nowhere(at)
      requires HEADER_OFFSET3 <= record.size <= MAX_RECORD
      requires if chain == [] then Nowhere(record.prev) else record.prev == chain[0]
      ensures Chain(log[at := record], [at] + chain)
    {
      var more, d := log[at := record], [at] + chain;
      InLog(log, chain);
      forall i | 0 <= i < |d|
        ensures Points(more, d, i)
      {
        if i > 0 { assert Points(log, chain, i - 1); }
      }
    }

    /** The heap of a query over the chosen nodes. */
    method GetQuerySet(keys: seq<K>) returns (q: QuerySet)
      requires Valid() && (forall k :: k in keys ==> k in latest)
      requires forall i, j :: 0 <= i < j < |keys| ==> keys[i] != keys[j]
      ensures fresh(q) && q.Valid(files)
      ensures q.Left() == set k, l | k in keys && k in chains && l in chains[k] :: l
    {
      hide *;
      NoHeads();
      KnownKeys();
      var locations: multiset<Loc> := multiset{};
      ghost var chosen: seq<seq<Loc>> := [];
      var i := 0;
      while i < |keys|
        invariant i <= |keys| && |chosen| == i && forall j :: 0 <= j < i ==>
          && keys[j] in chains
          && chosen[j] == chains[keys[j]]
        invariant locations == multiset(Heads(chosen))
      {
        var at := latest[keys[i]];
        ChosenHeads(keys, chosen, i);
        if at.index != MAX_UINT {
          locations := locations + multiset{at};
        }
        chosen := chosen + [chains[keys[i]]];
        i := i + 1;
      }
      AllChosen(keys, chosen);
      q := new QuerySet(locations, chosen, files);
    }

    lemma NoHeads()
      ensures multiset(Heads([])) == multiset{}
    {
      assert Heads([]) == {};
    }

    lemma KnownKeys()
      requires Valid()
      ensures chains.Keys == latest.Keys
    {
    }

    /** The heap after one more node, one record larger unless the node has none. */
    lemma ChosenHeads(keys: seq<K>, chosen: seq<seq<Loc>>, i: nat)
      requires Valid() && i < |keys| && |chosen| == i && (forall k :: k in keys ==> k in latest)
      requires forall a, b :: 0 <= a < b < |keys| ==> keys[a] != keys[b]
      requires forall j :: 0 <= j < i ==> keys[j] in chains && chosen[j] == chains[keys[j]]
      ensures keys[i] in latest && keys[i] in chains
      ensures var at := latest[keys[i]];
        multiset(Heads(chosen + [chains[keys[i]]])) ==
          multiset(Heads(chosen)) + if at.index != MAX_UINT then multiset{at} else multiset{}
    {
      hide Valid, Heads, Chain;
      Chosen(keys, chosen, i);
    }

    lemma AllChosen(keys: seq<K>, chosen: seq<seq<Loc>>)
      requires Valid() && |chosen| == |keys| && forall j :: 0 <= j < |keys| ==>
        && keys[j] in latest
        && chosen[j] == chains[keys[j]]
      requires forall a, b :: 0 <= a < b < |keys| ==> keys[a] != keys[b]
      ensures (forall j :: 0 <= j < |chosen| ==> Chain(files, chosen[j])) && Disjoint(chosen)
      ensures Pending(chosen) == set k, l | k in keys && k in chains && l in chains[k] :: l
    {
      forall j | 0 <= j < |chosen|
        ensures Chain(files, chosen[j])
      {
        assert Known(keys[j]);
      }
      forall l | l in Pending(chosen)
        ensures exists k :: k in keys && k in chains && l in chains[k]
      {
        var j :| 0 <= j < |chosen| && l in chosen[j];
        assert keys[j] in keys && l in chains[keys[j]];
      }
      forall k, l | k in keys && k in chains && l in chains[k]
        ensures l in Pending(chosen)
      {
        var j :| 0 <= j < |keys| && keys[j] == k;
        assert l in chosen[j];
      }
    }

    lemma Chosen(keys: seq<K>, chosen: seq<seq<Loc>>, i: nat)
      requires Valid() && i < |keys| && |chosen| == i && (forall k :: k in keys ==> k in latest)
      requires forall a, b :: 0 <= a < b < |keys| ==> keys[a] != keys[b]
      requires forall j :: 0 <= j < i ==> chosen[j] == chains[keys[j]]
      ensures keys[i] in latest && keys[i] in chains
      ensures var c := chains[keys[i]];
        && Heads(chosen + [c]) == Heads(chosen) + (if c == [] then {} else {c[0]})
        && (c != [] ==> c[0] !in Heads(chosen) && !Nowhere(c[0]))
      ensures Known(keys[i])
    {
      var c := chains[keys[i]];
      var all := chosen + [c];
      assert Known(keys[i]);
      assert all[i] == c && forall j :: 0 <= j < i ==> all[j] == chosen[j];
      if c != [] {
        assert Points(files, c, 0);
        assert all[i][0] in Heads(all);
        forall j | 0 <= j < i && chosen[j] != []
          ensures chosen[j][0] != c[0]
        {
          assert keys[j] in latest && c[0] in Elements(c) && chosen[j][0] in Elements(chains[keys[j]]);
        }
      }
      forall l | l in Heads(chosen)
        ensures l in Heads(all)
      {
        var j :| 0 <= j < i && chosen[j] != [] && chosen[j][0] == l;
        assert all[j][0] == l;
      }
    }
  }

  /** A new storage gets there: one node, a file filled up with other messages, and the first entry of the node. */
  method FilledUp<K(==, !new)>(key: K) returns (s: LinkLogStorage<K>)
    ensures fresh(s) && key in s.latest && !Nowhere(s.latest[key]) && s.latest[key] !in s.files && !s.Valid()
  {
    s := new LinkLogStorage(1);
    var ok := s.CreateLogger(key);
    while s.index < LOG_FILE_LIMIT_SIZE
      invariant fresh(s) && s.Valid() && key in s.latest
      decreases LOG_FILE_LIMIT_SIZE - s.index
    {
      s.Skip(MAX_RECORD, s.file + 1);
    }
    s.HandleLog(key, HEADER_OFFSET3, s.file + 1);
  }
}
