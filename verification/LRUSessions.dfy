/** Whole sessions with a cache: whatever clients do in whatever order, they read what was written last,
    and the destructor leaves that in the store. */
module LRUSessions {
  import opened Options
  import opened LRUCaches

  datatype Call<K, V> =
    | Obtain(key: K)
    | Change(key: K, value: V)
    | GiveBack(key: K, needUpdate: bool, aged: bool)
    | FlushOne
    | FlushAll
    | Drop(key: K)

  /** What clients know: the values written so far, the pins they hold, and what they wrote to and have not
      given back as changed. */
  datatype Client<K, V> = Client(values: map<K, V>, pins: multiset<K>, changed: set<K>)

  /** The store to start with, and the value of a key that is not in it. */
  datatype Origin<K, V> = Origin(store: map<K, V>, blank: V)

  function Newcomer<K, V>(): Client<K, V> {
    Client(map[], multiset{}, {})
  }

  /** The value of k: what was written last, or else what the store held at first. */
  function ValueOf<K, V>(o: Origin<K, V>, c: Client<K, V>, k: K): V {
    if k in c.values then c.values[k] else ValueIn(o.store, o.blank, k)
  }

  /** Clients write to and give back what they hold, say of the last pin they give back whether they changed
      the value, and do not drop what is in use. */
  predicate Lawful<K(==), V>(c: Client<K, V>, call: Call<K, V>) {
    match call
    case Change(k, _) => k in c.pins
    case GiveBack(k, needUpdate, _) => k in c.pins && (c.pins[k] == 1 && k in c.changed ==> needUpdate)
    case Drop(k) => k !in c.pins
    case _ => true
  }

  /** What a lawful call and its answer add to what clients know; others are not made. */
  function Next<K(==), V>(c: Client<K, V>, call: Call<K, V>, answer: Option<V>): Client<K, V> {
    if !Lawful(c, call) then c
    else match call
      case Obtain(k) => if answer.Some? then c.(pins := c.pins + multiset{k}) else c
      case Change(k, v) => c.(values := c.values[k := v], changed := c.changed + {k})
      case GiveBack(k, needUpdate, _) =>
        c.(pins := c.pins - multiset{k}, changed := if needUpdate || c.pins[k] == 1 then c.changed - {k} else c.changed)
      case _ => c
  }

  function After<K(==), V>(calls: seq<Call<K, V>>, answers: seq<Option<V>>): Client<K, V>
    requires |answers| == |calls|
  {
    if calls == [] then Newcomer()
    else
      var n := |calls| - 1;
      Next(After(calls[..n], answers[..n]), calls[n], answers[n])
  }

  ghost function Held<K, V>(c: Client<K, V>): set<K> {
    set k | k in c.pins
  }

  /** A successful get answers with the value written last; one fails only when the pinned entries of others fill the
      cache. */
  ghost predicate Right<K, V>(o: Origin<K, V>, capacity: nat, c: Client<K, V>, call: Call<K, V>, answer: Option<V>) {
    && (answer.Some? ==> call.Obtain? && answer.value == ValueOf(o, c, call.key))
    && (call.Obtain? && answer.None? ==> call.key !in c.pins && |Held(c)| >= capacity)
  }

  /** The entries carry the pins that clients hold. */
  ghost predicate PinsAre<K(!new), V>(nodes: map<K, Node<V>>, pins: multiset<K>) {
    forall k :: pins[k] == PinsOf(nodes, k)
  }

  function PinsOf<K, V>(nodes: map<K, Node<V>>, k: K): nat {
    if k in nodes then nodes[k].pins else 0
  }

  lemma PinsMore<K(!new), V>(was: map<K, Node<V>>, nodes: map<K, Node<V>>, pins: multiset<K>, key: K)
    requires PinsAre(was, pins) && PinsOf(nodes, key) == PinsOf(was, key) + 1
    requires forall k :: k != key ==> PinsOf(nodes, k) == PinsOf(was, k)
    ensures PinsAre(nodes, pins + multiset{key})
  {
  }

  lemma PinsLess<K(!new), V>(was: map<K, Node<V>>, nodes: map<K, Node<V>>, pins: multiset<K>, key: K)
    requires PinsAre(was, pins) && key in was && key in nodes && nodes[key].pins == was[key].pins - 1
    requires forall k :: k != key ==> PinsOf(nodes, k) == PinsOf(was, k)
    ensures PinsAre(nodes, pins - multiset{key})
  {
  }

  lemma PinsSame<K(!new), V>(was: map<K, Node<V>>, nodes: map<K, Node<V>>, pins: multiset<K>)
    requires PinsAre(was, pins) && forall k :: PinsOf(nodes, k) == PinsOf(was, k)
    ensures PinsAre(nodes, pins)
  {
  }

  /** The cache holds what clients think it does. */
  ghost predicate Mirrors<K(!new), V>(cache: LRUCache<K, V>, o: Origin<K, V>, c: Client<K, V>)
    reads cache
  {
    && (forall k :: cache.Logical(k) == ValueOf(o, c, k))
    && PinsAre(cache.nodes, c.pins) && cache.touched == c.changed && cache.blank == o.blank
  }

  lemma SamePins<K(!new), V>(cache: LRUCache<K, V>, o: Origin<K, V>, c: Client<K, V>)
    requires Mirrors(cache, o, c)
    ensures Pinned(cache.nodes) == Held(c) && (Pinned(cache.nodes) == {} <==> c.pins == multiset{})
    ensures forall k :: c.pins[k] == PinsOf(cache.nodes, k)
    ensures forall k :: cache.Logical(k) == ValueOf(o, c, k)
    ensures forall k :: k in c.pins <==> k in cache.nodes && cache.nodes[k].pins > 0
  {
    forall k
      ensures k in c.pins <==> k in cache.nodes && cache.nodes[k].pins > 0
    {
      assert k in c.pins <==> c.pins[k] > 0;
    }
    if c.pins != multiset{} {
      var k :| k in c.pins;
      assert k in Held(c);
    }
  }

  // ---- what is written back, and in which order ----

  /** The number of calls up to the last one that gave k back, 0 for none. */
  function LastPut<K(==), V>(calls: seq<Call<K, V>>, answers: seq<Option<V>>, k: K): (n: nat)
    requires |answers| == |calls|
    ensures n <= |calls|
  {
    if calls == [] then 0
    else
      var n := |calls| - 1;
      if calls[n].GiveBack? && calls[n].key == k && Lawful(After(calls[..n], answers[..n]), calls[n]) then n + 1
      else LastPut(calls[..n], answers[..n], k)
  }

  /** The list of entries to be written back has them in the order in which they were last given back. */
  ghost predicate Aged<K(!new), V>(obsolete: seq<K>, calls: seq<Call<K, V>>, answers: seq<Option<V>>)
    requires |answers| == |calls|
  {
    forall i, j :: 0 <= i < j < |obsolete| ==>
      LastPut(calls, answers, obsolete[i]) < LastPut(calls, answers, obsolete[j])
  }

  ghost predicate Thinned<K>(was: seq<K>, now: seq<K>) {
    forall i, j :: 0 <= i < j < |now| ==> Precedes(was, now[i], now[j])
  }

  /** What a call does to the list of entries to be written back. */
  ghost predicate ListStep<K, V>(c: Client<K, V>, call: Call<K, V>, was: seq<K>, now: seq<K>) {
    if Lawful(c, call) && call.GiveBack? then call.key !in was && (now == was || now == was + [call.key])
    else Thinned(was, now)
  }

  lemma LastPutMore<K, V>(calls: seq<Call<K, V>>, answers: seq<Option<V>>, call: Call<K, V>, answer: Option<V>, k: K)
    requires |answers| == |calls|
    ensures LastPut(calls + [call], answers + [answer], k) ==
      if call.GiveBack? && call.key == k && Lawful(After(calls, answers), call) then |calls| + 1
      else LastPut(calls, answers, k)
  {
    assert (calls + [call])[..|calls|] == calls && (answers + [answer])[..|answers|] == answers;
  }

  lemma AgedMore<K(!new), V>(was: seq<K>, now: seq<K>, calls: seq<Call<K, V>>, answers: seq<Option<V>>,
                             call: Call<K, V>, answer: Option<V>)
    requires |answers| == |calls| && Aged(was, calls, answers) && ListStep(After(calls, answers), call, was, now)
    ensures Aged(now, calls + [call], answers + [answer])
  {
    hide After, LastPut, Lawful;
    var more, all := calls + [call], answers + [answer];
    forall i, j | 0 <= i < j < |now|
      ensures LastPut(more, all, now[i]) < LastPut(more, all, now[j])
    {
      LastPutMore(calls, answers, call, answer, now[i]);
      LastPutMore(calls, answers, call, answer, now[j]);
      if Lawful(After(calls, answers), call) && call.GiveBack? {
        assert i < |was| && now[i] == was[i] && was[i] in was;
        assert j < |was| ==> now[j] == was[j] && was[j] in was;
      } else {
        assert Precedes(was, now[i], now[j]);
      }
    }
  }

  /** What a call does to the store, given the list of the entries to be written back: only values that clients know
      get there, of entries not in use; all that were changed do on FlushAll, the one dropped on Drop, and the first of
      the list on FlushOne. Nothing else differs from the store. */
  ghost predicate StoreStep<K(!new), V>(o: Origin<K, V>, c: Client<K, V>, call: Call<K, V>, before: map<K, V>,
                                        after: map<K, V>, list: seq<K>) {
    && (forall k :: k !in c.pins && k !in list ==> ValueIn(before, o.blank, k) == ValueOf(o, c, k))
    && (forall k :: ValueIn(after, o.blank, k) == ValueIn(before, o.blank, k) ||
         (k !in c.pins && ValueIn(after, o.blank, k) == ValueOf(o, c, k)))
    && (call.FlushAll? ==> forall k :: k !in c.pins ==> ValueIn(after, o.blank, k) == ValueOf(o, c, k))
    && (call.Drop? && Lawful(c, call) ==> ValueIn(after, o.blank, call.key) == ValueOf(o, c, call.key))
    && (call.FlushOne? ==>
         if list == [] then after == before
         else list[0] !in c.pins && after == before[list[0] := ValueOf(o, c, list[0])])
  }

  /** The same without the list: FlushOne writes back an entry given back before every other one that differs from
      the store, or nothing does. */
  ghost predicate WritesBack<K(!new), V>(o: Origin<K, V>, calls: seq<Call<K, V>>, answers: seq<Option<V>>,
                                         call: Call<K, V>, before: map<K, V>, after: map<K, V>)
    requires |answers| == |calls|
  {
    var c := After(calls, answers);
    && (forall k :: ValueIn(after, o.blank, k) == ValueIn(before, o.blank, k) ||
         (k !in c.pins && ValueIn(after, o.blank, k) == ValueOf(o, c, k)))
    && (call.FlushAll? ==> forall k :: k !in c.pins ==> ValueIn(after, o.blank, k) == ValueOf(o, c, k))
    && (call.Drop? && Lawful(c, call) ==> ValueIn(after, o.blank, call.key) == ValueOf(o, c, call.key))
    && (call.FlushOne? ==>
         || (after == before && forall k :: k !in c.pins ==> ValueIn(before, o.blank, k) == ValueOf(o, c, k))
         || (exists k :: k !in c.pins && after == before[k := ValueOf(o, c, k)] &&
              forall x :: x != k && x !in c.pins && ValueIn(before, o.blank, x) != ValueOf(o, c, x) ==>
                LastPut(calls, answers, k) < LastPut(calls, answers, x)))
  }

  lemma OldestFirst<K(!new), V>(o: Origin<K, V>, calls: seq<Call<K, V>>, answers: seq<Option<V>>, call: Call<K, V>,
                                before: map<K, V>, after: map<K, V>, list: seq<K>)
    requires |answers| == |calls| && Aged(list, calls, answers)
    requires StoreStep(o, After(calls, answers), call, before, after, list)
    ensures WritesBack(o, calls, answers, call, before, after)
  {
    hide After, LastPut, ValueOf, ValueIn;
    var c := After(calls, answers);
    if call.FlushOne? && list != [] {
      var k := list[0];
      forall x | x != k && x !in c.pins && ValueIn(before, o.blank, x) != ValueOf(o, c, x)
        ensures LastPut(calls, answers, k) < LastPut(calls, answers, x)
      {
        assert x in list;
        var j :| 0 <= j < |list| && list[j] == x;
      }
    }
  }

  /** Entries not in use differ from the store only if they are on the list. */
  lemma Differs<K(!new), V>(cache: LRUCache<K, V>, o: Origin<K, V>, c: Client<K, V>)
    requires cache.Valid() && Mirrors(cache, o, c)
    ensures forall k :: k !in c.pins && k !in cache.obsolete ==> ValueIn(cache.store, o.blank, k) == ValueOf(o, c, k)
    ensures forall k :: k in cache.obsolete ==>
      k !in c.pins && k in cache.nodes && cache.nodes[k].value == ValueOf(o, c, k)
    ensures forall k :: k in c.pins ==> k !in cache.obsolete
    ensures forall k :: k !in cache.nodes ==> cache.Stored(k) == ValueOf(o, c, k)
  {
    SamePins(cache, o, c);
    assert forall k :: cache.Logical(k) == LogicalIn(cache.nodes, cache.store, cache.blank, k);
  }

  lemma ThinnedSame<K>(s: seq<K>)
    ensures Thinned(s, s) && (s != [] ==> Thinned(s, s[1..])) && Thinned(s, [])
  {
  }

  lemma ThinnedAmong<K(!new)>(s: seq<K>, keep: set<K>)
    ensures Thinned(s, Among(s, keep))
  {
    forall i, j | 0 <= i < j < |Among(s, keep)|
      ensures Precedes(s, Among(s, keep)[i], Among(s, keep)[j])
    {
      AmongOrder(s, keep, i, j);
    }
  }

  lemma ThinnedWithout<K(!new)>(s: seq<K>, k: K)
    requires NoRepeats(s)
    ensures Thinned(s, Without(s, k))
  {
    var all := set x | x in s;
    AmongAll(s, all);
    AmongLess(s, all, k);
    ThinnedAmong(s, all - {k});
  }

  method Pin<K(==, !new), V>(cache: LRUCache<K, V>, k: K, ghost o: Origin<K, V>, ghost c: Client<K, V>)
    returns (answer: Option<V>)
    requires cache.Valid() && Mirrors(cache, o, c)
    modifies cache
    ensures cache.Valid() && Mirrors(cache, o, Next(c, Obtain(k), answer))
    ensures Right(o, cache.capacity, c, Obtain(k), answer)
    ensures ListStep(c, Obtain(k), old(cache.obsolete), cache.obsolete)
    ensures StoreStep(o, c, Obtain(k), old(cache.store), cache.store, old(cache.obsolete))
  {
    hide PinsAre, Sound, LogicalIn, ListStep, StoreStep, RestAfterGet;
    SamePins(cache, o, c);
    Differs(cache, o, c);
    ghost var s := cache.Now();
    var ok, n := cache.Get(k);
    PinSteps(o, c, k, s, cache.Now(), n);
    if ok {
      answer := Some(cache.nodes[k].value);
      PinsMore(s.nodes, cache.nodes, c.pins, k);
    } else {
      answer := None;
      PinsSame(s.nodes, cache.nodes, c.pins);
    }
  }

  lemma PinSteps<K(!new), V>(o: Origin<K, V>, c: Client<K, V>, key: K, s: State<K, V>, t: State<K, V>, n: nat)
    requires RestAfterGet(s, t, key, n) && s.blank == t.blank == o.blank && (key in s.nodes ==> key in t.nodes)
    requires forall k :: k !in c.pins && k !in s.obsolete ==> ValueIn(s.store, o.blank, k) == ValueOf(o, c, k)
    requires forall k :: LogicalIn(s.nodes, s.store, o.blank, k) == ValueOf(o, c, k)
    requires forall k :: k in c.pins <==> k in s.nodes && s.nodes[k].pins > 0
    ensures forall k :: k != key ==> PinsOf(t.nodes, k) == PinsOf(s.nodes, k)
    ensures ListStep(c, Obtain(key), s.obsolete, t.obsolete)
    ensures StoreStep(o, c, Obtain(key), s.store, t.store, s.obsolete)
  {
    ThinnedAmong(s.obsolete, t.nodes.Keys - {key});
    forall k | k in s.nodes && k !in t.nodes
      ensures k !in c.pins && ValueIn(t.store, o.blank, k) == ValueOf(o, c, k)
    {
      assert LogicalIn(s.nodes, s.store, o.blank, k) == ValueOf(o, c, k);
    }
  }

  method Unpin<K(==, !new), V>(cache: LRUCache<K, V>, k: K, needUpdate: bool, aged: bool, ghost o: Origin<K, V>,
                 ghost c: Client<K, V>)
    requires cache.Valid() && Mirrors(cache, o, c) && Lawful(c, GiveBack(k, needUpdate, aged))
    modifies cache
    ensures cache.Valid() && Mirrors(cache, o, Next(c, GiveBack(k, needUpdate, aged), None))
    ensures ListStep(c, GiveBack(k, needUpdate, aged), old(cache.obsolete), cache.obsolete)
    ensures StoreStep(o, c, GiveBack(k, needUpdate, aged), old(cache.store), cache.store, old(cache.obsolete))
  {
    hide PinsAre, Sound, LogicalIn;
    SamePins(cache, o, c);
    Differs(cache, o, c);
    ghost var was := cache.nodes;
    cache.Put(k, needUpdate, aged);
    PinsLess(was, cache.nodes, c.pins, k);
  }

  method WriteOne<K(==, !new), V>(cache: LRUCache<K, V>, ghost o: Origin<K, V>, ghost c: Client<K, V>)
    requires cache.Valid() && Mirrors(cache, o, c)
    modifies cache
    ensures cache.Valid() && Mirrors(cache, o, c)
    ensures ListStep(c, FlushOne, old(cache.obsolete), cache.obsolete)
    ensures StoreStep(o, c, FlushOne, old(cache.store), cache.store, old(cache.obsolete))
  {
    hide PinsAre, Sound, LogicalIn, Thinned;
    SamePins(cache, o, c);
    Differs(cache, o, c);
    ThinnedSame(cache.obsolete);
    ghost var was := cache.nodes;
    cache.UpdateOne();
    PinsSame(was, cache.nodes, c.pins);
  }

  method WriteAll<K(==, !new), V>(cache: LRUCache<K, V>, ghost o: Origin<K, V>, ghost c: Client<K, V>)
    requires cache.Valid() && Mirrors(cache, o, c)
    modifies cache
    ensures cache.Valid() && Mirrors(cache, o, c)
    ensures ListStep(c, FlushAll, old(cache.obsolete), cache.obsolete)
    ensures StoreStep(o, c, FlushAll, old(cache.store), cache.store, old(cache.obsolete))
  {
    hide PinsAre, Sound, LogicalIn, Thinned;
    SamePins(cache, o, c);
    Differs(cache, o, c);
    ThinnedSame(cache.obsolete);
    ghost var was := cache.nodes;
    cache.UpdateAll();
    PinsSame(was, cache.nodes, c.pins);
    Differs(cache, o, c);
  }

  method Away<K(==, !new), V>(cache: LRUCache<K, V>, k: K, ghost o: Origin<K, V>, ghost c: Client<K, V>)
    requires cache.Valid() && Mirrors(cache, o, c) && k !in c.pins
    modifies cache
    ensures cache.Valid() && Mirrors(cache, o, c)
    ensures ListStep(c, Drop(k), old(cache.obsolete), cache.obsolete)
    ensures StoreStep(o, c, Drop(k), old(cache.store), cache.store, old(cache.obsolete))
  {
    hide PinsAre, Sound, LogicalIn, Thinned, NoRepeats;
    SamePins(cache, o, c);
    Differs(cache, o, c);
    Repeatless(cache);
    ThinnedWithout(cache.obsolete, k);
    ghost var was := cache.nodes;
    var found := cache.Remove(k);
    PinsSame(was, cache.nodes, c.pins);
    Differs(cache, o, c);
  }

  lemma Repeatless<K(!new), V>(cache: LRUCache<K, V>)
    requires cache.Valid()
    ensures NoRepeats(cache.obsolete)
  {
  }

  /** One call, if clients may make it. */
  method Serve<K(==, !new), V>(cache: LRUCache<K, V>, call: Call<K, V>, lawful: bool, ghost o: Origin<K, V>,
                 ghost c: Client<K, V>)
    returns (answer: Option<V>)
    requires cache.Valid() && Mirrors(cache, o, c) && lawful == Lawful(c, call)
    modifies cache
    ensures cache.Valid() && Mirrors(cache, o, Next(c, call, answer))
    ensures Right(o, cache.capacity, c, call, answer)
    ensures ListStep(c, call, old(cache.obsolete), cache.obsolete)
    ensures StoreStep(o, c, call, old(cache.store), cache.store, old(cache.obsolete))
  {
    hide PinsAre, Sound, LogicalIn, Thinned;
    answer := None;
    SamePins(cache, o, c);
    Differs(cache, o, c);
    ThinnedSame(cache.obsolete);
    if !lawful {
      return;
    }
    ghost var was := cache.nodes;
    match call {
      case Obtain(k) => answer := Pin(cache, k, o, c);
      case Change(k, v) =>
        cache.Write(k, v);
        PinsSame(was, cache.nodes, c.pins);
      case GiveBack(k, needUpdate, aged) => Unpin(cache, k, needUpdate, aged, o, c);
      case FlushOne => WriteOne(cache, o, c);
      case FlushAll => WriteAll(cache, o, c);
      case Drop(k) => Away(cache, k, o, c);
    }
  }

  ghost predicate AllRight<K, V>(o: Origin<K, V>, capacity: nat, calls: seq<Call<K, V>>, answers: seq<Option<V>>)
    requires |answers| == |calls|
  {
    forall i :: 0 <= i < |calls| ==> Right(o, capacity, After(calls[..i], answers[..i]), calls[i], answers[i])
  }

  lemma OneMore<K, V>(o: Origin<K, V>, capacity: nat, calls: seq<Call<K, V>>, answers: seq<Option<V>>, call: Call<K, V>,
                      answer: Option<V>)
    requires |answers| == |calls| && AllRight(o, capacity, calls, answers)
    requires Right(o, capacity, After(calls, answers), call, answer)
    ensures AllRight(o, capacity, calls + [call], answers + [answer])
    ensures After(calls + [call], answers + [answer]) == Next(After(calls, answers), call, answer)
  {
    hide Right, Next;
    var n, more, all := |calls|, calls + [call], answers + [answer];
    assert more[..n] == calls && all[..n] == answers;
    forall i | 0 <= i < n + 1
      ensures Right(o, capacity, After(more[..i], all[..i]), more[i], all[i])
    {
      if i < n {
        assert more[..i] == calls[..i] && all[..i] == answers[..i];
      }
    }
  }

  /** stores[i] is the store before call i. */
  ghost predicate AllWritten<K(!new), V>(o: Origin<K, V>, calls: seq<Call<K, V>>, answers: seq<Option<V>>,
                                         stores: seq<map<K, V>>)
    requires |answers| == |calls|
  {
    && |stores| == |calls| + 1
    && (forall i :: 0 <= i < |calls| ==>
         WritesBack(o, calls[..i], answers[..i], calls[i], stores[i], stores[i + 1]))
  }

  lemma OneWritten<K(!new), V>(o: Origin<K, V>, calls: seq<Call<K, V>>, answers: seq<Option<V>>,
                               stores: seq<map<K, V>>, call: Call<K, V>, answer: Option<V>, store: map<K, V>)
    requires |answers| == |calls| && AllWritten(o, calls, answers, stores)
    requires WritesBack(o, calls, answers, call, stores[|calls|], store)
    ensures AllWritten(o, calls + [call], answers + [answer], stores + [store])
  {
    hide WritesBack;
    var n, more, all, every := |calls|, calls + [call], answers + [answer], stores + [store];
    assert more[..n] == calls && all[..n] == answers;
    forall i | 0 <= i < n + 1
      ensures WritesBack(o, more[..i], all[..i], more[i], every[i], every[i + 1])
    {
      if i < n {
        assert more[..i] == calls[..i] && all[..i] == answers[..i];
      }
    }
  }

  /** One more call of a session: what was written back was the right thing, and the list stays in order. */
  lemma Stepped<K(!new), V>(o: Origin<K, V>, calls: seq<Call<K, V>>, answers: seq<Option<V>>, stores: seq<map<K, V>>,
                            call: Call<K, V>, answer: Option<V>, store: map<K, V>, was: seq<K>, now: seq<K>)
    requires |answers| == |calls| && AllWritten(o, calls, answers, stores) && Aged(was, calls, answers)
    requires ListStep(After(calls, answers), call, was, now)
    requires StoreStep(o, After(calls, answers), call, stores[|calls|], store, was)
    ensures AllWritten(o, calls + [call], answers + [answer], stores + [store])
    ensures Aged(now, calls + [call], answers + [answer])
  {
    hide ListStep, StoreStep, WritesBack, Aged, After;
    OldestFirst(o, calls, answers, call, stores[|calls|], store, was);
    OneWritten(o, calls, answers, stores, call, answer, store);
    AgedMore(was, now, calls, answers, call, answer);
  }

  /** Any sequence of calls on a new cache, then the destructor: every get answers with the value written last
      or fails for lack of space; nothing but such values is written back, in the order in which the entries were
      given back; and if nothing is pinned at the end the store holds them all. */
  method Session<K(==, !new), V>(capacity: nat, store: map<K, V>, blank: V, calls: seq<Call<K, V>>)
    returns (answers: seq<Option<V>>, stores: seq<map<K, V>>, ok: bool, end: map<K, V>)
    ensures |answers| == |calls| && AllRight(Origin(store, blank), capacity, calls, answers)
    ensures AllWritten(Origin(store, blank), calls, answers, stores) && stores[0] == store
    ensures ok <==> After(calls, answers).pins == multiset{}
    ensures ok ==> forall k :: ValueIn(end, blank, k) == ValueOf(Origin(store, blank), After(calls, answers), k)
  {
    hide *;
    var cache := new LRUCache(capacity, store, blank);
    var client: Client<K, V> := Newcomer();
    ghost var o := Origin(store, blank);
    answers, stores := [], [cache.store];
    var n := 0;
    Begins(cache, o, capacity, calls[..0], answers, stores);
    while n < |calls|
      invariant n <= |calls| && |answers| == n && fresh(cache) && cache.Valid()
      invariant cache.capacity == capacity && cache.blank == blank
      invariant client == After(calls[..n], answers) && Mirrors(cache, o, client)
      invariant AllRight(o, capacity, calls[..n], answers)
      invariant AllWritten(o, calls[..n], answers, stores) && |stores| == n + 1
      invariant stores[0] == store && stores[n] == cache.store && Aged(cache.obsolete, calls[..n], answers)
    {
      ghost var was := cache.obsolete;
      var answer := Serve(cache, calls[n], Lawful(client, calls[n]), o, client);
      OneMore(o, capacity, calls[..n], answers, calls[n], answer);
      Stepped(o, calls[..n], answers, stores, calls[n], answer, cache.store, was, cache.obsolete);
      stores := stores + [cache.store];
      assert calls[..n + 1] == calls[..n] + [calls[n]];
      client := Next(client, calls[n], answer);
      answers := answers + [answer];
      n := n + 1;
    }
    assert calls[..n] == calls;
    SamePins(cache, o, client);
    ok := cache.Close();
    end := cache.store;
    if ok {
      forall k
        ensures ValueIn(end, blank, k) == ValueOf(o, client, k)
      {
        Ends(cache, k);
      }
    }
  }

  lemma Begins<K(!new), V>(cache: LRUCache<K, V>, o: Origin<K, V>, capacity: nat, calls: seq<Call<K, V>>,
                 answers: seq<Option<V>>, stores: seq<map<K, V>>)
    requires cache.Valid() && cache.nodes == map[] && cache.store == o.store && cache.blank == o.blank
    requires calls == [] && answers == [] && stores == [cache.store] && cache.obsolete == []
    ensures Mirrors(cache, o, Newcomer()) && After(calls, answers) == Newcomer()
    ensures AllRight(o, capacity, calls, answers) && AllWritten(o, calls, answers, stores)
    ensures Aged(cache.obsolete, calls, answers)
  {
  }

  lemma Ends<K(!new), V>(cache: LRUCache<K, V>, k: K)
    ensures cache.Stored(k) == ValueIn(cache.store, cache.blank, k)
  {
  }
}
