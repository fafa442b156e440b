/** The tree behind the buffer pool: runs of blocks, halved again and again, and the largest free run
    below each, as a function of the set of buffers that are out. */
module BuddyTree {

  const BLOCK_SIZE: nat := 4096

  function Pow2(n: nat): (p: nat)
    ensures p >= 1
  {
    if n == 0 then 1 else 2 * Pow2(n - 1)
  }

  /** 2^h blocks from block lo on. */
  datatype Run = Run(h: nat, lo: nat)

  function Size(h: nat): (s: nat)
    ensures s >= BLOCK_SIZE
  {
    BLOCK_SIZE * Pow2(h)
  }

  function Left(r: Run): Run
    requires r.h > 0
  {
    Run(r.h - 1, r.lo)
  }

  function Right(r: Run): Run
    requires r.h > 0
  {
    Run(r.h - 1, r.lo + Pow2(r.h - 1))
  }

  /** a is r or one of the runs r is halved into. */
  ghost predicate Under(a: Run, r: Run)
    decreases r.h
  {
    a == r || (r.h > 0 && (Under(a, Left(r)) || Under(a, Right(r))))
  }

  /** The two runs have no block in common. */
  predicate Apart(a: Run, b: Run) {
    a.lo + Pow2(a.h) <= b.lo || b.lo + Pow2(b.h) <= a.lo
  }

  ghost predicate Spread(A: set<Run>) {
    forall a, b :: a in A && b in A && a != b ==> Apart(a, b)
  }

  /** No buffer that is out has a block of r. */
  ghost predicate Free(A: set<Run>, r: Run) {
    forall a :: a in A ==> Apart(a, r)
  }

  /** The size of the largest run the pool could hand out inside r. */
  ghost function Rest(A: set<Run>, r: Run): (s: nat)
    ensures s <= Size(r.h)
    decreases r.h
  {
    if r in A then 0
    else if r.h == 0 then Size(0)
    else
      var a, b := Rest(A, Left(r)), Rest(A, Right(r));
      if a == Size(r.h - 1) && b == Size(r.h - 1) then Size(r.h) else Max(a, b)
  }

  function Max(a: nat, b: nat): (m: nat)
    ensures a <= m && b <= m && (m == a || m == b)
  {
    if a >= b then a else b
  }

  lemma {:induction false} Pow2Grows(a: nat, b: nat)
    requires a <= b
    ensures Pow2(a) <= Pow2(b) && Size(a) <= Size(b)
    ensures a < b ==> Pow2(a) < Pow2(b) && Size(a) < Size(b)
    decreases b
  {
    if a < b {
      Pow2Grows(a, b - 1);
    }
  }

  lemma {:induction false} Pow2Adds(a: nat, b: nat)
    ensures Pow2(a + b) == Pow2(a) * Pow2(b)
    decreases a
  {
    if a > 0 {
      Pow2Adds(a - 1, b);
    }
  }

  lemma {:induction false} UnderIn(a: Run, r: Run)
    requires Under(a, r)
    ensures a.h <= r.h && r.lo <= a.lo && a.lo + Pow2(a.h) <= r.lo + Pow2(r.h)
    ensures a.h == r.h ==> a == r
    decreases r.h
  {
    if a != r {
      if Under(a, Left(r)) {
        UnderIn(a, Left(r));
      } else {
        UnderIn(a, Right(r));
      }
    }
  }

  lemma {:induction false} UnderTrans(a: Run, b: Run, r: Run)
    requires Under(a, b) && Under(b, r)
    ensures Under(a, r)
    decreases r.h
  {
    if b != r {
      if Under(b, Left(r)) {
        UnderTrans(a, b, Left(r));
      } else {
        UnderTrans(a, b, Right(r));
      }
    }
  }

  /** Two runs of the tree are nested or apart. */
  lemma {:induction false} Nested(a: Run, b: Run, r: Run)
    requires Under(a, r) && Under(b, r)
    ensures Under(a, b) || Under(b, a) || Apart(a, b)
    decreases r.h
  {
    if a != r && b != r {
      if Under(a, Left(r)) && Under(b, Left(r)) {
        Nested(a, b, Left(r));
      } else if Under(a, Right(r)) && Under(b, Right(r)) {
        Nested(a, b, Right(r));
      } else {
        if Under(a, Left(r)) {
          UnderIn(a, Left(r));
          UnderIn(b, Right(r));
        } else {
          UnderIn(a, Right(r));
          UnderIn(b, Left(r));
        }
      }
    }
  }

  /** Buffers outside r do not matter to it. */
  lemma {:induction false} RestFrame(A: set<Run>, x: Run, r: Run)
    requires !Under(x, r)
    ensures Rest(A + {x}, r) == Rest(A, r)
    decreases r.h
  {
    if r.h > 0 {
      RestFrame(A, x, Left(r));
      RestFrame(A, x, Right(r));
    }
  }

  /** Taking part of r out of the free space leaves r less than wholly free. */
  lemma {:induction false} RestTaken(A: set<Run>, x: Run, r: Run)
    requires x in A && Under(x, r)
    ensures Rest(A, r) < Size(r.h)
    decreases r.h
  {
    hide Size, Pow2;
    if r !in A && r.h > 0 {
      Pow2Grows(r.h - 1, r.h);
      if Under(x, Left(r)) {
        RestTaken(A, x, Left(r));
      } else {
        RestTaken(A, x, Right(r));
      }
    }
  }

  /** A wholly free run has its full size. */
  lemma {:induction false} RestOfFree(A: set<Run>, r: Run)
    requires Free(A, r)
    ensures Rest(A, r) == Size(r.h)
    decreases r.h
  {
    if r.h > 0 {
      RestOfFree(A, Left(r));
      RestOfFree(A, Right(r));
    }
  }

  /** If putting x in or out changes nothing at p, it changes nothing above p. */
  lemma {:induction false} RestSame(A: set<Run>, x: Run, p: Run, q: Run)
    requires Under(x, p) && Under(p, q) && x != q && Rest(A + {x}, p) == Rest(A, p)
    ensures Rest(A + {x}, q) == Rest(A, q)
    decreases q.h
  {
    if p != q {
      if Under(p, Left(q)) {
        SideOf(x, p, q);
        RestFrame(A, x, Right(q));
        if x == Left(q) {
          UnderIn(p, x);
          UnderIn(x, p);
        } else {
          RestSame(A, x, p, Left(q));
        }
      } else {
        SideOf(x, p, q);
        RestFrame(A, x, Left(q));
        if x == Right(q) {
          UnderIn(p, x);
          UnderIn(x, p);
        } else {
          RestSame(A, x, p, Right(q));
        }
      }
    }
  }

  /** What is under one half is not under the other. */
  lemma SideOf(x: Run, p: Run, q: Run)
    requires Under(x, p) && q.h > 0
    ensures Under(p, Left(q)) ==> Under(x, Left(q)) && !Under(x, Right(q))
    ensures Under(p, Right(q)) ==> Under(x, Right(q)) && !Under(x, Left(q))
  {
    if Under(p, Left(q)) {
      UnderTrans(x, p, Left(q));
      UnderIn(x, Left(q));
      if Under(x, Right(q)) { UnderIn(x, Right(q)); }
    }
    if Under(p, Right(q)) {
      UnderTrans(x, p, Right(q));
      UnderIn(x, Right(q));
      if Under(x, Left(q)) { UnderIn(x, Left(q)); }
    }
  }

  // ---- what the numbers mean ----

  ghost predicate HasRun(A: set<Run>, r: Run, k: nat) {
    exists a: Run :: a.h == k && Under(a, r) && Free(A, a)
  }

  /** Every buffer is part of r or apart from it. */
  ghost predicate Confined(A: set<Run>, r: Run) {
    forall a :: a in A ==> Under(a, r) || Apart(a, r)
  }

  lemma ConfinedHalves(A: set<Run>, r: Run)
    requires Confined(A, r) && r !in A && r.h > 0
    ensures Confined(A, Left(r)) && Confined(A, Right(r))
  {
    forall a | a in A
      ensures (Under(a, Left(r)) || Apart(a, Left(r))) && (Under(a, Right(r)) || Apart(a, Right(r)))
    {
      if Under(a, r) {
        if Under(a, Left(r)) {
          UnderIn(a, Left(r));
        } else {
          UnderIn(a, Right(r));
        }
      }
    }
  }

  lemma HasRunHalves(A: set<Run>, r: Run, k: nat)
    requires k < r.h
    ensures HasRun(A, r, k) <==> HasRun(A, Left(r), k) || HasRun(A, Right(r), k)
  {
    if HasRun(A, r, k) {
      var a: Run :| a.h == k && Under(a, r) && Free(A, a);
      assert Under(a, Left(r)) || Under(a, Right(r));
    }
  }

  lemma NoRunInTaken(A: set<Run>, r: Run, k: nat)
    requires r in A
    ensures !HasRun(A, r, k)
  {
    forall a: Run | a.h == k && Under(a, r)
      ensures !Free(A, a)
    {
      UnderIn(a, r);
      assert !Apart(r, a);
    }
  }

  /** A run of 2^k blocks can be handed out inside r exactly when the number says so. */
  lemma {:induction false} RestMeansRun(A: set<Run>, r: Run, k: nat)
    requires Confined(A, r) && k <= r.h
    ensures Rest(A, r) >= Size(k) <==> HasRun(A, r, k)
    decreases r.h
  {
    hide Size, Pow2, HasRun, Confined, Free, Under, Apart;
    if r in A {
      NoRunInTaken(A, r, k);
    } else if k == r.h {
      WholeRun(A, r);
    } else {
      ConfinedHalves(A, r);
      RestMeansRun(A, Left(r), k);
      RestMeansRun(A, Right(r), k);
      HasRunHalves(A, r, k);
      Pow2Grows(k, r.h - 1);
      Pow2Grows(r.h - 1, r.h);
    }
  }

  lemma WholeRun(A: set<Run>, r: Run)
    requires Confined(A, r)
    ensures Rest(A, r) >= Size(r.h) <==> HasRun(A, r, r.h)
  {
    if Free(A, r) {
      RestOfFree(A, r);
      assert Under(r, r);
    } else {
      var a :| a in A && !Apart(a, r);
      RestTaken(A, a, r);
      forall b: Run | b.h == r.h && Under(b, r)
        ensures !Free(A, b)
      {
        UnderIn(b, r);
      }
    }
  }

  // ---- the best fit ----

  /** The run of 2^k blocks the descent ends at: at every fork it takes the half whose largest free run is
      smaller, if that is still large enough. */
  ghost function Fitting(A: set<Run>, r: Run, k: nat): Run
    decreases r.h
  {
    if r.h <= k then r
    else if Rest(A, Right(r)) < Size(k) || (Rest(A, Left(r)) >= Size(k) && Rest(A, Left(r)) <= Rest(A, Right(r))) then
      Fitting(A, Left(r), k)
    else Fitting(A, Right(r), k)
  }

  lemma {:induction false} RestShrinks(A: set<Run>, x: Run, r: Run)
    ensures Rest(A + {x}, r) <= Rest(A, r)
    decreases r.h
  {
    if r.h > 0 {
      RestShrinks(A, x, Left(r));
      RestShrinks(A, x, Right(r));
    }
  }

  lemma {:induction false} FittingInside(A: set<Run>, r: Run, k: nat)
    requires k <= r.h
    ensures Fitting(A, r, k).h == k && Under(Fitting(A, r, k), r)
    decreases r.h
  {
    if k < r.h {
      FittingInside(A, Left(r), k);
      FittingInside(A, Right(r), k);
    }
  }

  /** Taking x, in one half, out of what is free in r. */
  lemma RestOfHalves(A: set<Run>, x: Run, s: Run, o: Run, r: Run)
    requires r.h > 0 && r !in A && Under(x, s) && ((s == Left(r) && o == Right(r)) || (s == Right(r) && o == Left(r)))
    ensures Rest(A + {x}, r) == Max(Rest(A + {x}, s), Rest(A, o)) && Rest(A + {x}, s) <= Rest(A, s)
  {
    hide Rest, Size, Under, Pow2;
    UnderIn(x, s);
    OneSide(x, r);
    RestFrame(A, x, o);
    RestTaken(A + {x}, x, s);
    RestShrinks(A, x, s);
    RestNotFull(A + {x}, r);
  }

  lemma RestNotFull(A: set<Run>, r: Run)
    requires r.h > 0 && r !in A
    requires Rest(A, Left(r)) < Size(r.h - 1) || Rest(A, Right(r)) < Size(r.h - 1)
    ensures Rest(A, r) == Max(Rest(A, Left(r)), Rest(A, Right(r)))
  {
  }

  /** Best fit: no other free run of the same size would leave a larger free run than this one does. */
  lemma {:induction false} FittingLeavesMost(A: set<Run>, r: Run, k: nat, b: Run)
    requires Confined(A, r) && k <= r.h && b.h == k && Under(b, r) && Free(A, b)
    ensures Rest(A + {Fitting(A, r, k)}, r) >= Rest(A + {b}, r)
    decreases r.h
  {
    hide Size, Pow2, HasRun, Confined, Free, Apart, Rest;
    var a := Fitting(A, r, k);
    FittingInside(A, r, k);
    if k == r.h {
      UnderIn(b, r);
    } else {
      NotOut(A, r, b);
      ConfinedHalves(A, r);
      var sb := if Under(b, Left(r)) then Left(r) else Right(r);
      var ob := if sb == Left(r) then Right(r) else Left(r);
      FreeInside(A, sb, b);
      var left := Rest(A, Right(r)) < Size(k) || (Rest(A, Left(r)) >= Size(k) && Rest(A, Left(r)) <= Rest(A, Right(r)));
      var sa, oa := if left then Left(r) else Right(r), if left then Right(r) else Left(r);
      FittingInside(A, sa, k);
      RestOfHalves(A, a, sa, oa, r);
      RestOfHalves(A, b, sb, ob, r);
      if sa == sb {
        FittingLeavesMost(A, sa, k, b);
      }
    }
  }

  lemma NotOut(A: set<Run>, r: Run, b: Run)
    requires Under(b, r) && Free(A, b)
    ensures r !in A
  {
    UnderIn(b, r);
    assert !Apart(r, b);
  }

  lemma FreeInside(A: set<Run>, r: Run, b: Run)
    requires Confined(A, r) && Under(b, r) && Free(A, b)
    ensures Rest(A, r) >= Size(b.h)
  {
    UnderIn(b, r);
    RestMeansRun(A, r, b.h);
  }

  // ---- a pool used for single blocks only ----

  ghost function BlocksOf(r: Run): set<Run>
    decreases r.h
  {
    if r.h == 0 then {r} else BlocksOf(Left(r)) + BlocksOf(Right(r))
  }

  lemma OneSide(a: Run, r: Run)
    requires r.h > 0
    ensures !(Under(a, Left(r)) && Under(a, Right(r)))
  {
    if Under(a, Left(r)) {
      UnderIn(a, Left(r));
      if Under(a, Right(r)) { UnderIn(a, Right(r)); }
    }
  }

  lemma {:induction false} BlocksAre(r: Run)
    ensures |BlocksOf(r)| == Pow2(r.h)
    ensures forall a: Run :: a in BlocksOf(r) <==> a.h == 0 && Under(a, r)
    decreases r.h
  {
    if r.h > 0 {
      BlocksAre(Left(r));
      BlocksAre(Right(r));
      forall a | a in BlocksOf(Left(r))
        ensures a !in BlocksOf(Right(r))
      {
        OneSide(a, r);
      }
      assert BlocksOf(Left(r)) !! BlocksOf(Right(r));
    }
  }

  lemma {:induction false} Fills<T>(a: set<T>, b: set<T>)
    requires a <= b
    ensures |a| <= |b| && (|a| == |b| <==> a == b)
    decreases |a|
  {
    if a != {} {
      var x :| x in a;
      Fills(a - {x}, b - {x});
      assert a == (a - {x}) + {x} && b == (b - {x}) + {x};
    } else if b != {} {
      var x :| x in b;
      assert |b| == |b - {x}| + 1;
    }
  }

  /** A block has room for itself exactly if it is not out. */
  lemma FreeBlock(A: set<Run>, a: Run)
    requires a.h == 0 && forall b: Run :: b in A ==> b.h == 0
    ensures Free(A, a) <==> a !in A
  {
    if a in A {
      assert !Apart(a, a);
    }
    forall b | b in A && b != a
      ensures Apart(b, a)
    {
      assert Pow2(0) == 1;
    }
  }

  /** With only single blocks out, there is room for one more exactly while fewer are out than there are. */
  lemma RoomForBlock(A: set<Run>, r: Run)
    requires forall a: Run :: a in A ==> a.h == 0 && Under(a, r)
    ensures Rest(A, r) >= BLOCK_SIZE <==> |A| < Pow2(r.h)
  {
    assert Size(0) == BLOCK_SIZE;
    hide Rest, Size, Pow2, Under, Free, Apart, BlocksOf;
    BlocksAre(r);
    assert A <= BlocksOf(r);
    Fills(A, BlocksOf(r));
    RestMeansRun(A, r, 0);
    forall a: Run | a.h == 0
      ensures Free(A, a) <==> a !in A
    {
      FreeBlock(A, a);
    }
    if !HasRun(A, r, 0) {
      assert BlocksOf(r) <= A;
    }
  }
}
