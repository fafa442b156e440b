/** The buffer pool: the tree kept in an array, updated on the way up from the buffer handed out or put back. */
module BufferPools {
  import opened Options
  import opened Arithmetic
  import opened BuddyTree

  const WORD: nat := 0x1_0000_0000_0000_0000

  /** Address relative to the pool, and size in bytes. */
  datatype Buffer = Buffer(start: nat, size: nat)

  function BufferOf(a: Run): Buffer {
    Buffer(BLOCK_SIZE * a.lo, Size(a.h))
  }

  // ---- array positions ----

  function Depth(i: nat): nat {
    if i == 0 then 0 else Depth((i - 1) / 2) + 1
  }

  /** The run at a position of the array, in a pool of 2^L blocks. */
  function NodeOf(L: nat, i: nat): (r: Run)
    requires Depth(i) <= L
    ensures r.h == L - Depth(i)
  {
    if i == 0 then Run(L, 0)
    else if i % 2 == 1 then Left(NodeOf(L, (i - 1) / 2))
    else Right(NodeOf(L, (i - 1) / 2))
  }

  ghost predicate IsAbove(p: nat, i: nat) {
    i > 0 && ((i - 1) / 2 == p || IsAbove(p, (i - 1) / 2))
  }

  lemma {:induction false} DepthRange(i: nat)
    ensures Pow2(Depth(i)) <= i + 1 < 2 * Pow2(Depth(i))
    decreases i
  {
    if i > 0 {
      DepthRange((i - 1) / 2);
    }
  }

  /** The positions in use are those down to single blocks. */
  lemma DepthInPool(L: nat, i: nat)
    ensures i < 2 * Pow2(L) - 1 <==> Depth(i) <= L
  {
    DepthRange(i);
    if Depth(i) <= L {
      Pow2Grows(Depth(i), L);
    } else {
      Pow2Grows(L + 1, Depth(i));
    }
  }

  lemma Pow2Step(n: nat)
    ensures Pow2(n + 1) == 2 * Pow2(n)
  {
  }

  lemma Doubled(m: int, half: int)
    ensures Prod(2 * m, half) == Prod(m, 2 * half)
    ensures Prod(2 * m + 1, half) == Prod(m, 2 * half) + half
  {
    assert (2 * m) * half == m * (2 * half);
    assert (2 * m + 1) * half == (2 * m) * half + half;
  }

  /** A position counts the runs before it on its level. */
  lemma {:induction false} NodePlace(L: nat, i: nat)
    requires Depth(i) <= L
    ensures i + 1 >= Pow2(Depth(i))
    ensures NodeOf(L, i).lo == Prod(i + 1 - Pow2(Depth(i)), Pow2(L - Depth(i)))
    decreases i
  {
    hide Pow2, Prod, NodeOf;
    DepthRange(i);
    if i == 0 {
      PlaceRoot(L);
    } else {
      var p := (i - 1) / 2;
      NodePlace(L, p);
      PlaceBelow(L, p);
      assert i == 2 * p + 1 || i == 2 * p + 2;
    }
  }

  lemma PlaceRoot(L: nat)
    ensures Depth(0) == 0 && NodeOf(L, 0).lo == Prod(0 + 1 - Pow2(0), Pow2(L - 0))
  {
  }

  lemma PlaceBelow(L: nat, p: nat)
    requires Depth(p) < L && p + 1 >= Pow2(Depth(p))
    requires NodeOf(L, p).lo == Prod(p + 1 - Pow2(Depth(p)), Pow2(L - Depth(p)))
    ensures var i := 2 * p + 1; Depth(i) <= L && NodeOf(L, i).lo == Prod(i + 1 - Pow2(Depth(i)), Pow2(L - Depth(i)))
    ensures var i := 2 * p + 2; Depth(i) <= L && NodeOf(L, i).lo == Prod(i + 1 - Pow2(Depth(i)), Pow2(L - Depth(i)))
  {
    hide Pow2, NodeOf, Depth, Prod;
    var d := Depth(p);
    Kids(L, p);
    Pow2Step(d);
    Pow2Step(L - d - 1);
    var m := p + 1 - Pow2(d);
    Doubled(m, Pow2(L - d - 1));
    assert 2 * p + 2 - Pow2(d + 1) == 2 * m && 2 * p + 3 - Pow2(d + 1) == 2 * m + 1;
  }

  lemma Pow2Zero()
    ensures Pow2(0) == 1
  {
  }

  lemma SameNode(L: nat, i: nat, k: nat)
    requires Depth(i) <= L && Depth(k) <= L && NodeOf(L, i) == NodeOf(L, k)
    ensures i == k
  {
    hide Pow2, NodeOf, Prod;
    NodePlace(L, i);
    NodePlace(L, k);
    var d := Depth(i);
    assert Depth(k) == d;
    Cancel(i + 1 - Pow2(d), k + 1 - Pow2(d), Pow2(L - d));
  }

  lemma Kids(L: nat, i: nat)
    requires Depth(i) < L
    ensures Depth(2 * i + 1) == Depth(i) + 1 && NodeOf(L, 2 * i + 1) == Left(NodeOf(L, i)) && IsAbove(i, 2 * i + 1)
    ensures Depth(2 * i + 2) == Depth(i) + 1 && NodeOf(L, 2 * i + 2) == Right(NodeOf(L, i)) && IsAbove(i, 2 * i + 2)
  {
    var l, r := 2 * i + 1, 2 * i + 2;
    assert (l - 1) / 2 == i && (r - 1) / 2 == i && l % 2 == 1 && r % 2 == 0;
  }

  /** Every run of the tree has a position, below the position of the run it is part of. */
  lemma {:induction false} Locate(L: nat, i: nat, x: Run) returns (k: nat)
    requires Depth(i) <= L && Under(x, NodeOf(L, i))
    ensures Depth(k) <= L && NodeOf(L, k) == x && (k == i || IsAbove(i, k))
    decreases L - Depth(i)
  {
    hide Depth, NodeOf, IsAbove, Pow2;
    var r := NodeOf(L, i);
    if x == r {
      return i;
    }
    Kids(L, i);
    if Under(x, Left(r)) {
      k := Locate(L, 2 * i + 1, x);
      AboveTrans(i, 2 * i + 1, k);
    } else {
      k := Locate(L, 2 * i + 2, x);
      AboveTrans(i, 2 * i + 2, k);
    }
  }

  lemma {:induction false} AboveTrans(i: nat, l: nat, k: nat)
    requires IsAbove(i, l) && (k == l || IsAbove(l, k))
    ensures IsAbove(i, k) && i < k
    decreases k
  {
    if k != l && (k - 1) / 2 != l {
      AboveTrans(i, l, (k - 1) / 2);
    } else if k == l {
      AboveLess(i, l);
    } else {
      AboveLess(i, l);
    }
  }

  lemma {:induction false} AboveLess(p: nat, i: nat)
    requires IsAbove(p, i)
    ensures p <= (i - 1) / 2 < i
    decreases i
  {
    if (i - 1) / 2 != p {
      AboveLess(p, (i - 1) / 2);
    }
  }

  lemma UnderAbove(L: nat, i: nat, k: nat)
    requires Depth(i) <= L && Depth(k) <= L && Under(NodeOf(L, k), NodeOf(L, i))
    ensures k == i || IsAbove(i, k)
  {
    var j := Locate(L, i, NodeOf(L, k));
    SameNode(L, j, k);
  }

  lemma {:induction false} AboveUnder(L: nat, p: nat, i: nat)
    requires IsAbove(p, i) && Depth(i) <= L
    ensures Depth(p) < Depth(i) && Under(NodeOf(L, i), NodeOf(L, p)) && NodeOf(L, i) != NodeOf(L, p)
    decreases i
  {
    var q := (i - 1) / 2;
    assert Under(NodeOf(L, i), NodeOf(L, q));
    if q != p {
      AboveUnder(L, p, q);
      UnderTrans(NodeOf(L, i), NodeOf(L, q), NodeOf(L, p));
    }
  }

  // ---- sizes ----

  /** The number of doublings round_size makes, stopping where a doubling would wrap a 64-bit word. */
  function LevelFrom(k: nat, target: nat): (r: nat)
    requires k <= 51
    ensures k <= r <= 51
    decreases 51 - k
  {
    if k == 51 || Size(k) >= target then k else LevelFrom(k + 1, target)
  }

  function Level(target: nat): nat {
    LevelFrom(0, target)
  }

  lemma TopSize()
    ensures Size(51) == WORD / 2
  {
    assert Pow2(10) == 1024;
    Pow2Adds(10, 10);
    Pow2Adds(20, 20);
    Pow2Adds(40, 11);
    assert Pow2(11) == 2048;
  }

  lemma {:induction false} LevelFromLeast(k: nat, target: nat)
    requires k <= 51
    ensures Size(LevelFrom(k, target)) >= target <==> Size(51) >= target
    ensures LevelFrom(k, target) > k ==> Size(LevelFrom(k, target) - 1) < target
    decreases 51 - k
  {
    hide Size, Pow2;
    if k < 51 && Size(k) < target {
      LevelFromLeast(k + 1, target);
    } else {
      Pow2Grows(k, 51);
    }
  }

  /** Rounding up reaches the target exactly if that is at most 2^63, and by the least power that does. */
  lemma RoundedIsLeast(target: nat)
    ensures Size(Level(target)) >= target <==> target <= WORD / 2
    ensures Level(target) > 0 ==> Size(Level(target) - 1) < target
  {
    TopSize();
    LevelFromLeast(0, target);
  }

  method RoundSize(target: nat) returns (size: nat)
    requires target < WORD
    ensures size == Size(Level(target))
  {
    hide Size, Pow2;
    var pre: nat;
    pre, size := 0, BLOCK_SIZE;
    ghost var k: nat := 0;
    SizeStep(0);
    while size < target && size > pre
      invariant k <= 51 && Level(target) == LevelFrom(k, target)
      invariant if size == 0 then k == 51 && pre == Size(51) && pre < target else size == Size(k) && pre < size
      decreases 52 - k, size
    {
      pre := size;
      Shifted(k);
      size := (size * 2) % WORD;
      if k < 51 {
        k := k + 1;
      }
    }
    if size < pre {
      size := pre;
    }
  }

  /** Doubling the top size wraps to zero. */
  lemma Shifted(k: nat)
    requires k <= 51
    ensures (Size(k) * 2) % WORD == if k == 51 then 0 else Size(k + 1)
    ensures Size(k) < Size(k + 1)
  {
    hide Size, Pow2;
    TopSize();
    SizeStep(k);
    if k < 51 {
      Pow2Grows(k + 1, 51);
    }
  }

  lemma SizeStep(k: nat)
    ensures Size(k + 1) == 2 * Size(k) && Size(0) == BLOCK_SIZE
  {
  }

  lemma Pow2Order(d: nat, e: nat)
    ensures d <= e || Pow2(d) >= 2 * Pow2(e)
  {
    if d > e {
      Pow2Grows(e + 1, d);
    }
  }

  lemma DepthIs(d: nat, i: nat)
    requires Pow2(d) <= i + 1 < 2 * Pow2(d)
    ensures Depth(i) == d
  {
    DepthRange(i);
    Pow2Order(d, Depth(i));
    Pow2Order(Depth(i), d);
  }

  lemma Blocks(h: nat)
    ensures Size(h) / BLOCK_SIZE == Pow2(h)
  {
  }

  lemma Halved(s: nat, d: nat, L: nat)
    requires d <= L && s == Size(L - d)
    ensures s >= BLOCK_SIZE
    ensures s / 2 == if d == L then BLOCK_SIZE / 2 else Size(L - d - 1)
  {
    if d < L {
      SizeStep(L - d - 1);
    }
  }

  /** Going up: only the numbers on the way from the changed run to the root may change, and none
      beyond the first that does not. */
  lemma Elsewhere(L: nat, A: set<Run>, i: nat, k: nat)
    requires Depth(i) <= L && Depth(k) <= L && k != i && !IsAbove(k, i)
    ensures Rest(A + {NodeOf(L, i)}, NodeOf(L, k)) == Rest(A, NodeOf(L, k))
  {
    if Under(NodeOf(L, i), NodeOf(L, k)) {
      UnderAbove(L, k, i);
    }
    RestFrame(A, NodeOf(L, i), NodeOf(L, k));
  }

  lemma Beyond(L: nat, A: set<Run>, x: Run, p: nat, q: nat)
    requires Depth(p) <= L && IsAbove(q, p) && Under(x, NodeOf(L, p))
    requires Rest(A + {x}, NodeOf(L, p)) == Rest(A, NodeOf(L, p))
    ensures Depth(q) <= L && Rest(A + {x}, NodeOf(L, q)) == Rest(A, NodeOf(L, q))
  {
    AboveUnder(L, q, p);
    UnderIn(x, NodeOf(L, p));
    RestSame(A, x, NodeOf(L, p), NodeOf(L, q));
  }

  /** The parent and the sibling of a position. */
  lemma Kin(i: nat, p: nat, t: nat)
    requires i > 0
    requires if i % 2 == 1 then p == (i - 1) / 2 && t == i + 1 else p == (i - 2) / 2 && t == i - 1
    ensures p == (i - 1) / 2 && t > 0 && (t - 1) / 2 == p && t % 2 != i % 2
    ensures IsAbove(p, i) && IsAbove(p, t) && Depth(p) == Depth(i) - 1 && Depth(t) == Depth(i)
    ensures t != i && !IsAbove(t, i) && !IsAbove(i, i) && !IsAbove(p, p)
    ensures forall q: nat :: IsAbove(q, i) <==> q == p || IsAbove(q, p)
  {
    assert (t - 1) / 2 == p;
    if IsAbove(t, i) { AboveLess(t, i); }
    if IsAbove(i, i) { AboveLess(i, i); }
    if IsAbove(p, p) { AboveLess(p, p); }
  }

  /** The number of the parent from those of both its halves. */
  lemma Family(L: nat, A: set<Run>, i: nat, p: nat, t: nat)
    requires i > 0 && t > 0 && Depth(i) <= L && Depth(t) == Depth(i) && p == (i - 1) / 2 == (t - 1) / 2
    requires i % 2 != t % 2
    requires Depth(p) == Depth(i) - 1 && NodeOf(L, p) !in A
    ensures var h := NodeOf(L, i).h; var a, b := Rest(A, NodeOf(L, i)), Rest(A, NodeOf(L, t));
      Rest(A, NodeOf(L, p)) == if a == Size(h) && b == Size(h) then 2 * Size(h) else Max(a, b)
  {
    hide Size, Pow2, Depth, NodeOf;
    Kids(L, p);
    assert i % 2 == 1 ==> i == 2 * p + 1 && t == 2 * p + 2;
    assert i % 2 == 0 ==> t == 2 * p + 1 && i == 2 * p + 2;
    SizeStep(NodeOf(L, i).h);
  }

  /** The runs of the tree are the aligned ones inside the pool. */
  lemma AlignedRuns(L: nat, a: Run)
    ensures Under(a, Run(L, 0)) <==> a.h <= L && exists m: nat :: m < Pow2(L - a.h) && a.lo == Prod(m, Pow2(a.h))
  {
    hide Pow2, Prod, Under, NodeOf, Depth;
    RootIs(L);
    if Under(a, Run(L, 0)) {
      var k := Locate(L, 0, a);
      DepthRange(k);
      NodePlace(L, k);
      assert k + 1 - Pow2(Depth(k)) < Pow2(L - a.h);
    }
    if a.h <= L {
      forall m: nat | m < Pow2(L - a.h) && a.lo == Prod(m, Pow2(a.h))
        ensures Under(a, Run(L, 0))
      {
        var k := Pow2(L - a.h) - 1 + m;
        DepthIs(L - a.h, k);
        NodePlace(L, k);
        assert NodeOf(L, k) == a;
        if k == 0 {
          assert Under(a, a) by { UnderSelf(a); }
        } else {
          RootAbove(k);
          AboveUnder(L, 0, k);
        }
      }
    }
  }

  lemma RootIs(L: nat)
    ensures Depth(0) == 0 && NodeOf(L, 0) == Run(L, 0)
  {
  }

  lemma UnderSelf(a: Run)
    ensures Under(a, a)
  {
  }

  lemma {:induction false} RootAbove(i: nat)
    requires i > 0
    ensures IsAbove(0, i)
    decreases i
  {
    if (i - 1) / 2 > 0 {
      RootAbove((i - 1) / 2);
    }
  }

  class BufferPool {
    const size: nat
    ghost const L: nat
    const rest: array<nat>
    /** The buffers that are out. */
    ghost var out: set<Run>

    ghost function Root(): Run {
      Run(L, 0)
    }

    /** Every number in the array is determined by the set of buffers that are out. */
    ghost predicate Valid()
      reads this, rest
    {
      && size == Size(L) && rest.Length == 2 * Pow2(L)
      && Spread(out) && (forall a :: a in out ==> Under(a, Root()))
      && forall i: nat :: InPool(i) ==> rest[i] == Rest(out, NodeOf(L, i))
    }

    ghost predicate InPool(i: nat)
      ensures InPool(i) && rest.Length == 2 * Pow2(L) ==> i < rest.Length - 1
    {
      DepthInPool(L, i);
      Depth(i) <= L
    }

    /** On the way up from position i, the numbers strictly above it are still those for A. */
    ghost predicate Climbing(A: set<Run>, B: set<Run>, i: nat)
      requires rest.Length == 2 * Pow2(L)
      reads this, rest
    {
      forall k: nat :: InPool(k) ==> rest[k] == Rest(if IsAbove(k, i) then A else B, NodeOf(L, k))
    }

    constructor (total: nat)
      requires total < WORD && Level(total) <= 30
      ensures Valid() && out == {} && L == Level(total) && fresh(rest)
    {
      hide Size, Pow2, Rest, NodeOf, Depth;
      var s := RoundSize(total);
      size, L := s, Level(total);
      Blocks(Level(total));
      rest := new nat[s / BLOCK_SIZE * 2](_ => 0);
      out := {};
      new;
      Fill();
      AllFree();
    }

    lemma AllFree()
      requires rest.Length == 2 * Pow2(L) && forall i: nat :: InPool(i) ==> rest[i] == Size(L - Depth(i))
      ensures forall i: nat :: InPool(i) ==> rest[i] == Rest({}, NodeOf(L, i))
    {
      hide Size, Pow2, Rest, NodeOf, Depth;
      forall i: nat | InPool(i)
        ensures rest[i] == Rest({}, NodeOf(L, i))
      {
        RestOfFree({}, NodeOf(L, i));
      }
    }

    method Fill()
      requires size == Size(L) && rest.Length == 2 * Pow2(L)
      modifies rest
      ensures forall i: nat :: InPool(i) ==> rest[i] == Size(L - Depth(i))
    {
      hide Pow2, Size, Depth;
      var s, t, i := size, 1, 0;
      ghost var d: nat := 0;
      Pow2Zero();
      while s >= BLOCK_SIZE
        invariant d <= L + 1 && t == Pow2(d) && i == Pow2(d) - 1
        invariant s == if d <= L then Size(L - d) else BLOCK_SIZE / 2
        invariant forall k: nat :: k < i && InPool(k) ==> rest[k] == Size(L - Depth(k))
        decreases L + 1 - d
      {
        i := FillLevel(s, t, i, d);
        Halved(s, d, L);
        Pow2Step(d);
        s := s / 2;
        t := t * 2;
        d := d + 1;
      }
      Pow2Step(L);
    }

    /** The inner loop: one level of the tree. */
    method FillLevel(s: nat, t: nat, from: nat, ghost d: nat) returns (i: nat)
      requires d <= L && rest.Length == 2 * Pow2(L) && t == Pow2(d) && from == t - 1 && s == Size(L - d)
      modifies rest
      ensures i == from + t
      ensures forall k: nat :: k < from && InPool(k) ==> rest[k] == old(rest[k])
      ensures forall k: nat :: from <= k < i && InPool(k) ==> rest[k] == Size(L - Depth(k))
    {
      hide Pow2, Size, Depth;
      Pow2Grows(d, L);
      i := from;
      var end := i + t;
      while i < end
        invariant from <= i <= end && end == 2 * t - 1
        invariant forall k: nat :: k < from && InPool(k) ==> rest[k] == old(rest[k])
        invariant forall k: nat :: from <= k < i && InPool(k) ==> rest[k] == s && Depth(k) == d
      {
        rest[i] := s;
        DepthIs(d, i);
        i := i + 1;
      }
    }

    /** The descent to the best fitting run. */
    method Positioning(want: nat, ghost k: nat) returns (i: nat, start: nat)
      requires Valid() && want == Size(k) && k <= L && rest[0] >= want
      ensures InPool(i) && NodeOf(L, i).h == k && Free(out, NodeOf(L, i)) && rest[i] == want
      ensures NodeOf(L, i) == Fitting(out, Root(), k)
      ensures start == BLOCK_SIZE * NodeOf(L, i).lo
    {
      hide Pow2, Size, Rest, Under, Free, Confined, Spread, NodeOf, Depth, Fitting;
      i := 0;
      var n, s := 0, size;
      RootConfined();
      RootIs(L);
      while s != want
        invariant InPool(i) && Depth(i) == n && s == Size(L - n) && k <= L - n
        invariant rest[i] >= want && Confined(out, NodeOf(L, i))
        invariant Fitting(out, NodeOf(L, i), k) == Fitting(out, Root(), k)
        decreases L - n
      {
        SizeStep(L - n - 1);
        Fork(i, k);
        FittingFork(i, k);
        var l, r := i * 2 + 1, i * 2 + 2;
        i := if rest[r] < want || (rest[l] >= want && rest[l] <= rest[r]) then l else r;
        n := n + 1;
        s := s / 2;
      }
      SizeOnce(L - n, k);
      FittingHere(i, k);
      FreeThere(i);
      StartOf(i, k);
      start := (i - (Pow2(n) - 1)) * want;
    }

    lemma SizeOnce(a: nat, b: nat)
      requires Size(a) == Size(b)
      ensures a == b
    {
      if a < b { Pow2Grows(a, b); }
      if b < a { Pow2Grows(b, a); }
    }

    lemma RootConfined()
      requires Valid()
      ensures Confined(out, NodeOf(L, 0)) && InPool(0) && Depth(0) == 0 && rest[0] == Rest(out, Root())
    {
    }

    lemma Fork(i: nat, k: nat)
      requires Valid() && InPool(i) && rest[i] >= Size(k) && Confined(out, NodeOf(L, i))
      requires k < L - Depth(i)
      ensures InPool(2 * i + 1) && InPool(2 * i + 2) && Depth(2 * i + 1) == Depth(2 * i + 2) == Depth(i) + 1
      ensures rest[2 * i + 1] >= Size(k) || rest[2 * i + 2] >= Size(k)
      ensures Confined(out, NodeOf(L, 2 * i + 1)) && Confined(out, NodeOf(L, 2 * i + 2))
    {
      hide Size, Pow2, Depth, Under, Confined, NodeOf, Spread;
      var r := NodeOf(L, i);
      assert r !in out;
      Kids(L, i);
      SizeStep(L - Depth(i) - 1);
      Pow2Grows(k, L - Depth(i) - 1);
      ConfinedHalves(out, r);
    }

    lemma FittingFork(i: nat, k: nat)
      requires Valid() && InPool(i) && InPool(2 * i + 1) && InPool(2 * i + 2) && k < L - Depth(i)
      ensures var l, r := 2 * i + 1, 2 * i + 2;
        var j := if rest[r] < Size(k) || (rest[l] >= Size(k) && rest[l] <= rest[r]) then l else r;
        Fitting(out, NodeOf(L, j), k) == Fitting(out, NodeOf(L, i), k)
    {
      hide Size, Pow2, Depth, Under, NodeOf, Spread, Rest;
      Kids(L, i);
    }

    lemma FittingHere(i: nat, k: nat)
      requires InPool(i) && NodeOf(L, i).h == k
      ensures Fitting(out, NodeOf(L, i), k) == NodeOf(L, i)
    {
    }

    lemma FreeThere(i: nat)
      requires Valid() && InPool(i) && Confined(out, NodeOf(L, i)) && rest[i] >= Size(NodeOf(L, i).h)
      ensures Free(out, NodeOf(L, i)) && rest[i] == Size(NodeOf(L, i).h)
    {
      var r := NodeOf(L, i);
      WholeRun(out, r);
      var a: Run :| a.h == r.h && Under(a, r) && Free(out, a);
      UnderIn(a, r);
    }

    lemma StartOf(i: nat, k: nat)
      requires InPool(i) && NodeOf(L, i).h == k
      ensures i + 1 >= Pow2(Depth(i)) && (i - (Pow2(Depth(i)) - 1)) * Size(k) == BLOCK_SIZE * NodeOf(L, i).lo
    {
      hide Pow2, NodeOf;
      NodePlace(L, i);
      Swap(i + 1 - Pow2(Depth(i)), BLOCK_SIZE, Pow2(k));
    }

    /** Some run of the rounded size is wholly free: exactly then a buffer is handed out, and it is such a run. */
    method Get(target: nat) returns (r: Option<Buffer>, ghost a: Run)
      requires Valid() && target < WORD
      modifies this`out, rest
      ensures Valid()
      ensures r.Some? <==> HasRun(old(out), Root(), Level(target))
      ensures r.None? ==> out == old(out) && rest[..] == old(rest[..])
      ensures r.Some? ==> a.h == Level(target) && Under(a, Root()) && Free(old(out), a)
      ensures r.Some? ==> r.value == BufferOf(a) && out == old(out) + {a}
      ensures r.Some? ==> forall b: Run :: b.h == a.h && Under(b, Root()) && Free(old(out), b) ==>
        Rest(old(out) + {a}, Root()) >= Rest(old(out) + {b}, Root())
    {
      hide Pow2, Size, Rest, Under, Free, HasRun, Fitting, Confined;
      var want := RoundSize(target);
      ghost var k := Level(target);
      a := Root();
      Enough(k);
      if want > rest[0] {
        return None, a;
      }
      var i, start := Positioning(want, k);
      a := NodeOf(L, i);
      BestFit(k);
      TakeRun(i, a);
      return Some(Buffer(start, want)), a;
    }

    /** No other free run of the size would leave a larger free run. */
    lemma BestFit(k: nat)
      requires Valid() && k <= L
      ensures forall b: Run :: b.h == k && Under(b, Root()) && Free(out, b) ==>
        Rest(out + {Fitting(out, Root(), k)}, Root()) >= Rest(out + {b}, Root())
    {
      hide Pow2, Size, Rest, Under, Free, HasRun, Fitting;
      RootConfined();
      RootIs(L);
      forall b: Run | b.h == k && Under(b, Root()) && Free(out, b)
        ensures Rest(out + {Fitting(out, Root(), k)}, Root()) >= Rest(out + {b}, Root())
      {
        FittingLeavesMost(out, Root(), k, b);
      }
    }

    lemma Enough(k: nat)
      requires Valid()
      ensures InPool(0) && (rest[0] >= Size(k) <==> HasRun(out, Root(), k)) && (HasRun(out, Root(), k) ==> k <= L)
    {
      RootConfined();
      if k <= L {
        RestMeansRun(out, Root(), k);
      } else {
        Pow2Grows(L, k);
        forall a: Run | a.h == k
          ensures !Under(a, Root())
        {
          if Under(a, Root()) { UnderIn(a, Root()); }
        }
      }
    }

    /** The second half of get: mark the run as taken, and correct the numbers above it. */
    method TakeRun(at: nat, ghost x: Run)
      requires Valid() && InPool(at) && x == NodeOf(L, at) && Free(out, x)
      modifies this`out, rest
      ensures Valid() && out == old(out) + {x}
    {
      hide Pow2, Size, Rest, Under, Free, NodeOf, Depth, IsAbove, Spread;
      ghost var A, B := out, out + {x};
      out := B;
      SpreadMore(A, x, at);
      Unlike(A, B, x, at);
      var i := at;
      rest[i] := 0;
      while i > 0
        invariant out == B && rest.Length == 2 * Pow2(L) && InPool(i) && Under(x, NodeOf(L, i)) && Climbing(A, B, i)
        decreases i
      {
        var p, t := if i % 2 == 1 then (i - 1) / 2 else (i - 2) / 2, if i % 2 == 1 then i + 1 else i - 1;
        Climb(A, B, x, i, p, t);
        RestTaken(B, x, NodeOf(L, i));
        var ms := if rest[i] >= rest[t] then rest[i] else rest[t];
        if rest[p] == ms {
          Settled(A, B, x, i, p);
          break;
        }
        rest[p] := ms;
        i := p;
      }
      AtTop(A, B, i);
    }

    /** A buffer that is out comes back. */
    method Put(buffer: Buffer, ghost x: Run)
      requires Valid() && x in out && buffer == BufferOf(x)
      modifies this`out, rest
      ensures Valid() && out == old(out) - {x}
    {
      hide Pow2, Size, Rest, Under, Free, NodeOf, Depth, IsAbove, Spread;
      var i := Location(buffer.start, buffer.size, x);
      var fs := buffer.size;
      ghost var A, B, at := out, out - {x}, i;
      out := B;
      SpreadLess(A, x, at);
      Unlike(A, B, x, at);
      rest[i] := fs;
      while i > 0
        invariant out == B && rest.Length == 2 * Pow2(L) && InPool(i) && Under(x, NodeOf(L, i)) && Climbing(A, B, i)
        invariant fs == Size(NodeOf(L, i).h)
        decreases i
      {
        var p, t := if i % 2 == 1 then (i - 1) / 2 else (i - 2) / 2, if i % 2 == 1 then i + 1 else i - 1;
        Climb(A, B, x, i, p, t);
        var ms := if rest[i] >= rest[t] then rest[i] else rest[t];
        if rest[i] == fs && fs == rest[t] {
          ms := fs * 2;
        }
        if rest[p] == ms {
          Settled(A, B, x, i, p);
          break;
        }
        rest[p] := ms;
        i := p;
        fs := fs * 2;
      }
      AtTop(A, B, i);
    }

    /** The position of a buffer from its address and size. */
    method Location(start: nat, bytes: nat, ghost x: Run) returns (i: nat)
      requires Valid() && Under(x, Root()) && Buffer(start, bytes) == BufferOf(x)
      ensures InPool(i) && NodeOf(L, i) == x
    {
      hide Pow2, Size, Under, NodeOf, Depth, IsAbove;
      ghost var k := Find(x);
      var n, s := 0, bytes;
      while size > s
        invariant x.h + n <= L && s == Size(x.h + n)
        decreases L - x.h - n
      {
        SizeStep(x.h + n);
        Wider(x.h + n);
        n, s := n + 1, s * 2;
      }
      Widest(x.h + n);
      PlaceOf(k, x);
      i := Pow2(n) - 1 + start / bytes;
    }

    lemma Find(x: Run) returns (k: nat)
      requires Under(x, Root())
      ensures InPool(k) && NodeOf(L, k) == x && x.h == L - Depth(k)
    {
      k := Locate(L, 0, x);
    }

    lemma Wider(h: nat)
      requires size == Size(L) && size > Size(h)
      ensures h < L
    {
      if L <= h { Pow2Grows(L, h); }
    }

    lemma Widest(h: nat)
      requires size == Size(L) && size <= Size(h) && h <= L
      ensures h == L
    {
      if h < L { Pow2Grows(h, L); }
    }

    lemma PlaceOf(k: nat, x: Run)
      requires InPool(k) && NodeOf(L, k) == x
      ensures k == Pow2(Depth(k)) - 1 + (BLOCK_SIZE * x.lo) / Size(x.h)
    {
      hide Pow2, NodeOf;
      NodePlace(L, k);
      var m := k + 1 - Pow2(Depth(k));
      Swap(m, BLOCK_SIZE, Pow2(x.h));
      Divides(m, Size(x.h));
    }

    /** Buffers that are out lie in the pool, at multiples of their size, and share no byte. */
    lemma BuffersOut(a: Run, b: Run)
      requires Valid() && a in out && b in out
      ensures BufferOf(a).start % BufferOf(a).size == 0 && BufferOf(a).start + BufferOf(a).size <= size
      ensures a != b ==>
        BufferOf(a).start + BufferOf(a).size <= BufferOf(b).start ||
          BufferOf(b).start + BufferOf(b).size <= BufferOf(a).start
    {
      AlignedRuns(L, a);
      UnderIn(a, Root());
      var m: nat :| m < Pow2(L - a.h) && a.lo == Prod(m, Pow2(a.h));
      Swap(m, BLOCK_SIZE, Pow2(a.h));
      Multiple(m, Size(a.h));
    }

    lemma Multiple(m: nat, d: nat)
      requires d > 0
      ensures (m * d) % d == 0
    {
      Divides(m, d);
    }

    /** Two pools of one size with the same buffers out hold the same array. */
    lemma Determined(other: BufferPool)
      requires Valid() && other.Valid() && other.L == L && other.out == out
      ensures rest[..rest.Length - 1] == other.rest[..rest.Length - 1]
    {
      forall i: nat | i < rest.Length - 1
        ensures rest[i] == other.rest[i]
      {
        DepthInPool(L, i);
        assert InPool(i) && other.InPool(i);
      }
    }

    /** The destructor's check is exact: the root shows the whole size just when everything is back,
        and the array is then the one the constructor built. */
    lemma AllBack()
      requires Valid()
      ensures rest.Length > 0 && (rest[0] == size <==> out == {})
      ensures out == {} ==> forall i: nat :: InPool(i) ==> rest[i] == Size(L - Depth(i))
    {
      hide Pow2, Size, Rest, NodeOf, Depth, Spread, Under;
      RootIs(L);
      assert InPool(0);
      if out == {} {
        forall i: nat | InPool(i)
          ensures rest[i] == Size(L - Depth(i))
        {
          RestOfFree(out, NodeOf(L, i));
        }
      } else {
        var a :| a in out;
        RestTaken(out, a, Root());
      }
    }

    // ---- the way up ----

    /** B is A with x put in or taken out; the rest is apart from x. */
    ghost predicate Differ(A: set<Run>, B: set<Run>, x: Run) {
      && (B == A + {x} || (A == B + {x} && x !in B))
      && forall a :: a in A + B && a != x ==> Apart(a, x)
    }

    lemma SpreadMore(A: set<Run>, x: Run, at: nat)
      requires InPool(at) && x == NodeOf(L, at) && Free(A, x) && Spread(A) && forall a :: a in A ==> Under(a, Root())
      ensures Spread(A + {x}) && (forall a :: a in A + {x} ==> Under(a, Root())) && Differ(A, A + {x}, x)
      ensures Rest(A + {x}, x) == 0
      ensures Under(x, x)
    {
      if at > 0 {
        RootAbove(at);
        AboveUnder(L, 0, at);
      }
    }

    lemma SpreadLess(A: set<Run>, x: Run, at: nat)
      requires InPool(at) && x == NodeOf(L, at) && x in A && Spread(A)
      ensures Spread(A - {x}) && Differ(A, A - {x}, x) && Rest(A - {x}, x) == Size(x.h) && Under(x, x)
    {
      assert A == (A - {x}) + {x};
      RestOfFree(A - {x}, x);
    }

    lemma Unlike(A: set<Run>, B: set<Run>, x: Run, at: nat)
      requires InPool(at) && x == NodeOf(L, at) && Differ(A, B, x)
      ensures !IsAbove(at, at)
      ensures forall k: nat :: InPool(k) && k != at && !IsAbove(k, at) ==>
        Rest(A, NodeOf(L, k)) == Rest(B, NodeOf(L, k))
    {
      if IsAbove(at, at) { AboveLess(at, at); }
      forall k: nat | InPool(k) && k != at && !IsAbove(k, at)
        ensures Rest(A, NodeOf(L, k)) == Rest(B, NodeOf(L, k))
      {
        Elsewhere(L, A, at, k);
        Elsewhere(L, B, at, k);
      }
    }

    /** One step up from position i to its parent p, past its sibling t. */
    lemma Climb(A: set<Run>, B: set<Run>, x: Run, i: nat, p: nat, t: nat)
      requires rest.Length == 2 * Pow2(L) && i > 0 && InPool(i) && Under(x, NodeOf(L, i)) && Climbing(A, B, i)
      requires Differ(A, B, x)
      requires if i % 2 == 1 then p == (i - 1) / 2 && t == i + 1 else p == (i - 2) / 2 && t == i - 1
      ensures p < i && InPool(p) && InPool(t) && Under(x, NodeOf(L, p)) && NodeOf(L, p).h == NodeOf(L, i).h + 1
      ensures !IsAbove(p, p) && forall q: nat :: IsAbove(q, i) <==> q == p || IsAbove(q, p)
      ensures rest[p] == Rest(A, NodeOf(L, p)) && rest[i] == Rest(B, NodeOf(L, i))
      ensures Size(NodeOf(L, p).h) == 2 * Size(NodeOf(L, i).h)
      ensures var full := Size(NodeOf(L, i).h);
        Rest(B, NodeOf(L, p)) == if rest[i] == full && rest[t] == full then 2 * full else Max(rest[i], rest[t])
    {
      hide Pow2, Size, Rest, Apart;
      SizeStep(NodeOf(L, i).h);
      Kin(i, p, t);
      NotTaken(A, B, x, i, p);
      Family(L, B, i, p, t);
      AboveUnder(L, p, i);
      UnderTrans(x, NodeOf(L, i), NodeOf(L, p));
    }

    lemma NotTaken(A: set<Run>, B: set<Run>, x: Run, i: nat, p: nat)
      requires i > 0 && p == (i - 1) / 2 && InPool(i) && Under(x, NodeOf(L, i)) && Differ(A, B, x)
      ensures NodeOf(L, p) !in A + B
    {
      AboveUnder(L, p, i);
      UnderTrans(x, NodeOf(L, i), NodeOf(L, p));
      UnderIn(x, NodeOf(L, i));
      UnderIn(x, NodeOf(L, p));
      UnderIn(NodeOf(L, i), NodeOf(L, p));
    }

    /** A parent whose number need not change ends the way up. */
    lemma Settled(A: set<Run>, B: set<Run>, x: Run, i: nat, p: nat)
      requires rest.Length == 2 * Pow2(L) && InPool(p) && Under(x, NodeOf(L, p)) && Climbing(A, B, i) && Differ(A, B, x)
      requires forall q: nat :: IsAbove(q, i) <==> q == p || IsAbove(q, p)
      requires rest[p] == Rest(A, NodeOf(L, p)) == Rest(B, NodeOf(L, p))
      ensures forall k: nat :: InPool(k) ==> rest[k] == Rest(B, NodeOf(L, k))
    {
      hide Rest, Under;
      forall k: nat | InPool(k)
        ensures rest[k] == Rest(B, NodeOf(L, k))
      {
        if k != p && IsAbove(k, i) {
          if B == A + {x} {
            Beyond(L, A, x, p, k);
          } else {
            Beyond(L, B, x, p, k);
          }
        }
      }
    }

    lemma AtTop(A: set<Run>, B: set<Run>, i: nat)
      requires rest.Length == 2 * Pow2(L) && InPool(i)
      requires (i == 0 && Climbing(A, B, i)) || forall k: nat :: InPool(k) ==> rest[k] == Rest(B, NodeOf(L, k))
      ensures forall k: nat :: InPool(k) ==> rest[k] == Rest(B, NodeOf(L, k))
    {
    }
  }
}
