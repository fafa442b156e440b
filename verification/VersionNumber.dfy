/** Version numbers that wrap around: addition modulo 2^n, and the order of the nearer way round. */
module VersionNumbers {
  import opened Arithmetic

  /** Half the range: 2^31 for VersionNumber32, 2^63 for VersionNumber64. */
  type Half = h: nat | h > 0 witness 1

  /** A number below 2 * half, all the class stores. */
  predicate Stored(half: Half, v: nat) {
    v < 2 * half
  }

  class VersionNumber {
    const half: Half
    var version: nat

    ghost predicate Valid()
      reads this
    {
      Stored(half, version)
    }

    constructor (half: Half, version: nat)
      requires Stored(half, version)
      ensures Valid() && this.half == half && this.version == version
    {
      this.half, this.version := half, version;
    }

    /** ++ */
    method Next()
      requires Valid()
      modifies this
      ensures Valid() && version == Added(half, old(version), 1)
    {
      SumOfTwo(half, version, 1);
      if version != 2 * half - 1 {
        version := version + 1;
      } else {
        version := 0;
      }
    }

    /** += */
    method Advance(step: nat)
      requires Valid() && Stored(half, step)
      modifies this
      ensures Valid() && version == Added(half, old(version), step)
    {
      SumOfTwo(half, version, step);
      var res := 2 * half - 1 - version;
      if step < res {
        version := version + step;
      } else {
        // unsigned: step == res wraps to the greatest number
        version := if step == res then 2 * half - 1 else step - res - 1;
      }
    }

    /** + */
    method Plus(step: nat) returns (sum: nat)
      requires Valid() && Stored(half, step)
      ensures Stored(half, sum) && sum == Added(half, version, step)
    {
      SumOfTwo(half, version, step);
      var res := 2 * half - 1 - version;
      if step < res {
        return version + step;
      }
      sum := if step == res then 2 * half - 1 else step - res - 1;
    }
  }

  /** Addition modulo 2^n. */
  function Added(half: Half, v: nat, step: nat): nat {
    (v + step) % (2 * half)
  }

  lemma SumOfTwo(half: Half, v: nat, step: nat)
    requires Stored(half, v) && Stored(half, step)
    ensures Added(half, v, step) == if v + step < 2 * half then v + step else v + step - 2 * half
  {
    Remainder(0, 2 * half, v);
    Wrapped(half, v, step);
  }

  predicate Less(half: Half, a: nat, b: nat)
    requires Stored(half, a) && Stored(half, b)
  {
    if a < b then b - a <= (2 * half - 1) / 2 else a - b > (2 * half - 1) / 2
  }

  predicate Greater(half: Half, a: nat, b: nat)
    requires Stored(half, a) && Stored(half, b)
  {
    if a > b then a - b <= (2 * half - 1) / 2 else b - a > (2 * half - 1) / 2
  }

  /** Exactly one of <, ==, > holds, also for numbers half the range apart; and > is < turned round. */
  lemma Trichotomy(half: Half, a: nat, b: nat)
    requires Stored(half, a) && Stored(half, b)
    ensures Less(half, a, b) ==> a != b && !Greater(half, a, b)
    ensures Greater(half, a, b) ==> a != b
    ensures Less(half, a, b) || a == b || Greater(half, a, b)
    ensures Greater(half, a, b) <==> Less(half, b, a)
  {
  }

  /** Counters that never wrap, seen modulo 2^n, are ordered as the counters are exactly while these are less
      than half the range apart; at half the range the greater stored number is the lesser. */
  lemma OrderOfCounters(half: Half, x: nat, y: nat)
    requires x <= y <= x + half
    ensures var a, b := x % (2 * half), y % (2 * half);
      && (y - x < half ==> (Less(half, a, b) <==> x < y) && (a == b <==> x == y))
      && (y - x == half ==> (Less(half, a, b) <==> b < a))
  {
    Wrapped(half, x, y - x);
  }

  lemma Wrapped(half: Half, x: nat, d: nat)
    requires d < 2 * half
    ensures var a := x % (2 * half);
      (x + d) % (2 * half) == if a + d < 2 * half then a + d else a + d - 2 * half
  {
    WrappedMod(2 * half, x, d);
  }

  lemma WrappedMod(m: nat, x: nat, d: nat)
    requires d < m
    ensures (x + d) % m == if x % m + d < m then x % m + d else x % m + d - m
  {
    var q, a := x / m, x % m;
    assert x + d == q * m + a + d;
    WrappedBy(m, q, a, d);
  }

  lemma WrappedBy(m: nat, q: nat, a: nat, d: nat)
    requires a < m && d < m
    ensures (q * m + a + d) % m == if a + d < m then a + d else a + d - m
  {
    if a + d < m {
      Remainder(q, m, a + d);
    } else {
      assert q * m + (a + d) == (q + 1) * m + (a + d - m);
      Remainder(q + 1, m, a + d - m);
    }
  }

  /** Inside a window shorter than half the range the order is transitive. */
  lemma TransitiveInWindow(half: Half, base: nat, i: nat, j: nat, k: nat)
    requires i < half && j < half && k < half
    ensures var a, b, c := (base + i) % (2 * half), (base + j) % (2 * half), (base + k) % (2 * half);
      Less(half, a, b) && Less(half, b, c) ==> Less(half, a, c)
  {
    WindowOrder(half, base, i, j);
    WindowOrder(half, base, j, k);
    WindowOrder(half, base, i, k);
  }

  lemma WindowOrder(half: Half, base: nat, i: nat, j: nat)
    requires i < half && j < half
    ensures Less(half, (base + i) % (2 * half), (base + j) % (2 * half)) <==> i < j
  {
    if i <= j {
      OrderOfCounters(half, base + i, base + j);
    } else {
      OrderOfCounters(half, base + j, base + i);
      Trichotomy(half, (base + j) % (2 * half), (base + i) % (2 * half));
    }
  }

  /** Section 3.2 of RFC 1982, where it defines an order: i1 is less than i2. */
  predicate SerialLess(half: Half, i1: nat, i2: nat) {
    i1 != i2 && ((i1 < i2 && i2 - i1 < half) || (i1 > i2 && i1 - i2 > half))
  }

  predicate SerialDefined(half: Half, i1: nat, i2: nat) {
    i1 == i2 || SerialLess(half, i1, i2) || SerialLess(half, i2, i1)
  }

  /** The order agrees with serial number arithmetic wherever that defines one: for all pairs but those half the range
      apart. */
  lemma AgreesWithSerialNumbers(half: Half, a: nat, b: nat)
    requires Stored(half, a) && Stored(half, b)
    ensures SerialDefined(half, a, b) <==> !(a - b == half || b - a == half)
    ensures SerialDefined(half, a, b) ==> (Less(half, a, b) <==> SerialLess(half, a, b))
  {
  }
}
