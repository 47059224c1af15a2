/** The order in which the zstd decoding-table builder visits the cells of its table. */
module ZstdSpread {
  import opened Arith

  /** FSE_TABLESTEP. */
  function TableStep(size: nat): nat {
    size / 2 + size / 8 + 3
  }

  /** The cell visited after `i` steps. */
  function Visit(tableLog: nat, i: nat): (c: nat)
    ensures c < Pow2(tableLog)
  {
    i * TableStep(Pow2(tableLog)) % Pow2(tableLog)
  }

  lemma OddSum(x: nat)
    ensures TableStep(16 * x) % 2 == 1
  {
    DivModUnique(16 * x, 2, 8 * x, 0);
    DivModUnique(16 * x, 8, 2 * x, 0);
    DivModUnique(8 * x + 2 * x + 3, 2, 4 * x + x + 1, 1);
  }

  lemma StepIsOdd(tableLog: nat)
    requires tableLog >= 4
    ensures TableStep(Pow2(tableLog)) % 2 == 1
  {
    Pow2Add(4, tableLog - 4);
    assert Pow2(4) == 16;
    OddSum(Pow2(tableLog - 4));
  }

  /** One step of the walk, with the mask as the modulus. */
  lemma NextVisit(tableLog: nat, i: nat)
    ensures (Visit(tableLog, i) + TableStep(Pow2(tableLog))) % Pow2(tableLog) == Visit(tableLog, i + 1)
  {
    hide Pow2, TableStep;
    StepModulo(i, TableStep(Pow2(tableLog)), Pow2(tableLog));
  }

  lemma StepModulo(i: nat, s: nat, n: nat)
    requires n > 0
    ensures (i * s % n + s) % n == (i + 1) * s % n
  {
    var q, r := i * s / n, i * s % n;
    assert i * s == q * n + r;
    assert (i + 1) * s == i * s + s;
    var q', r' := (r + s) / n, (r + s) % n;
    assert (i + 1) * s == (q + q') * n + r' by { assert (q + q') * n == q * n + q' * n; }
    DivModUnique((i + 1) * s, n, q + q', r');
  }

  lemma VisitEnds(tableLog: nat)
    ensures Visit(tableLog, 0) == 0 && Visit(tableLog, Pow2(tableLog)) == 0
  {
    hide Pow2, TableStep;
    var n, s := Pow2(tableLog), TableStep(Pow2(tableLog));
    assert n * s == s * n && 0 * s == 0;
    DivModUnique(n * s, n, s, 0);
    DivModUnique(0, n, 0, 0);
  }

  /** An odd number shares no factor with a power of two. */
  lemma OddCancels(k: nat, d: nat, s: nat)
    requires s % 2 == 1 && d * s % Pow2(k) == 0
    ensures d % Pow2(k) == 0
  {
    hide Pow2;
    var m := d * s / Pow2(k);
    WholeQuotient(d * s, Pow2(k));
    var g := OddFactor(k, d, s, m);
    DivModUnique(d, Pow2(k), g, 0);
  }

  lemma WholeQuotient(x: nat, p: nat)
    requires p > 0 && x % p == 0
    ensures x / p >= 0 && x == x / p * p
  {
  }

  lemma {:induction false} OddFactor(k: nat, d: nat, s: nat, m: nat) returns (g: nat)
    requires s % 2 == 1 && d * s == m * Pow2(k)
    ensures d == g * Pow2(k)
    decreases k
  {
    if k == 0 {
      g := d;
    } else {
      var p := Pow2(k - 1);
      EvenFactor(d, s, m, p);
      g := OddFactor(k - 1, d / 2, s, m);
      Doubled(g, p);
    }
  }

  lemma EvenFactor(d: nat, s: nat, m: nat, p: nat)
    requires s % 2 == 1 && d * s == m * (2 * p)
    ensures d == 2 * (d / 2) && d / 2 * s == m * p
  {
    var t := s / 2;
    Doubled(m, p);
    OddProduct(d, s, t);
    EvenSum(d, d * t, m * p);
    HalfProduct(d, d / 2, s, m * p);
  }

  lemma EvenSum(d: nat, a: nat, b: nat)
    requires 2 * a + d == 2 * b
    ensures d == 2 * (d / 2)
  {
  }

  lemma HalfProduct(d: nat, e: nat, s: nat, x: nat)
    requires d == 2 * e && d * s == 2 * x
    ensures e * s == x
  {
    assert d * s == 2 * (e * s);
  }

  lemma Doubled(a: nat, b: nat)
    ensures a * (2 * b) == 2 * (a * b)
  {
  }

  lemma OddProduct(d: nat, s: nat, t: nat)
    requires s == 2 * t + 1
    ensures d * s == 2 * (d * t) + d
  {
  }

  /** No cell is visited twice in one round. */
  lemma VisitsDiffer(tableLog: nat, i: nat, j: nat)
    requires tableLog >= 4 && i < j < Pow2(tableLog)
    ensures Visit(tableLog, i) != Visit(tableLog, j)
  {
    hide Pow2, TableStep;
    var n, s := Pow2(tableLog), TableStep(Pow2(tableLog));
    if Visit(tableLog, i) == Visit(tableLog, j) {
      StepIsOdd(tableLog);
      var a, b := i * s / n, j * s / n;
      assert (j - i) * s == j * s - i * s;
      assert j * s - i * s == (b - a) * n by { assert (b - a) * n == b * n - a * n; }
      DivModUnique((j - i) * s, n, b - a, 0);
      OddCancels(tableLog, j - i, s);
      DivModUnique(j - i, n, 0, j - i);
      assert false;
    }
  }

  // --------------------------------------------------------- a round as a permutation

  ghost predicate Distinct(s: seq<nat>) {
    forall i, j | 0 <= i < j < |s| :: s[i] != s[j]
  }

  ghost function Elements(s: seq<nat>): set<nat> {
    set x | x in s
  }

  /** The numbers below `n`. */
  ghost function Range(n: nat): (r: set<nat>)
    ensures |r| == n
    ensures forall c: nat :: c in r <==> c < n
  {
    if n == 0 then {} else Range(n - 1) + {n - 1}
  }

  lemma {:induction false} DistinctSize(s: seq<nat>)
    requires Distinct(s)
    ensures |Elements(s)| == |s|
    decreases s
  {
    if s == [] {
      assert Elements(s) == {};
    } else {
      var last := |s| - 1;
      DistinctSize(s[..last]);
      assert s == s[..last] + [s[last]];
      assert Elements(s) == Elements(s[..last]) + {s[last]};
    }
  }

  lemma SubsetOfSameSize(a: set<nat>, b: set<nat>)
    requires a <= b && |a| == |b|
    ensures a == b
  {
    if x :| x in b && x !in a {
      assert a <= b - {x};
      SubsetSize(a, b - {x});
      assert false;
    }
  }

  lemma {:induction false} SubsetSize(a: set<nat>, b: set<nat>)
    requires a <= b
    ensures |a| <= |b|
    decreases a
  {
    if x :| x in a {
      SubsetSize(a - {x}, b - {x});
    }
  }

  /** As many distinct numbers below `n` as there are numbers below `n`: all of them. */
  lemma AllBelow(s: seq<nat>, n: nat)
    requires Distinct(s) && |s| == n && forall i | 0 <= i < |s| :: s[i] < n
    ensures forall c | 0 <= c < n :: c in s
  {
    DistinctSize(s);
    SubsetOfSameSize(Elements(s), Range(n));
    forall c: nat | 0 <= c < n
      ensures c in s
    {
      assert c in Range(n);
    }
  }

  /** The first `n` cells visited, leaving out those above `high`. */
  function Order(tableLog: nat, high: int, n: nat): seq<nat> {
    if n == 0 then []
    else Order(tableLog, high, n - 1) + (if Visit(tableLog, n - 1) <= high then [Visit(tableLog, n - 1)] else [])
  }

  /** With no cell left out the order is the walk itself. */
  lemma {:induction false} OrderIsWalk(tableLog: nat, n: nat)
    ensures |Order(tableLog, Pow2(tableLog) - 1, n)| == n
    ensures forall i | 0 <= i < n :: Order(tableLog, Pow2(tableLog) - 1, n)[i] == Visit(tableLog, i)
  {
    hide Pow2, Visit;
    if n == 0 {
    } else {
      OrderIsWalk(tableLog, n - 1);
    }
  }

  /** Every element of the order is a visit of an earlier step. */
  lemma {:induction false} OrderVisits(tableLog: nat, high: int, n: nat, k: nat) returns (i: nat)
    requires k < |Order(tableLog, high, n)|
    ensures i < n && Visit(tableLog, i) == Order(tableLog, high, n)[k] <= high
    decreases n
  {
    hide Pow2, Visit;
    if k < |Order(tableLog, high, n - 1)| {
      i := OrderVisits(tableLog, high, n - 1, k);
    } else {
      i := n - 1;
    }
  }

  lemma {:induction false} OrderDistinct(tableLog: nat, high: int, n: nat)
    requires tableLog >= 4 && n <= Pow2(tableLog)
    ensures Distinct(Order(tableLog, high, n))
  {
    hide Pow2, Visit;
    if n == 0 {
    } else {
      OrderDistinct(tableLog, high, n - 1);
      var o := Order(tableLog, high, n - 1);
      forall k | 0 <= k < |o|
        ensures o[k] != Visit(tableLog, n - 1)
      {
        var i := OrderVisits(tableLog, high, n - 1, k);
        VisitsDiffer(tableLog, i, n - 1);
      }
    }
  }

  lemma {:induction false} OrderContains(tableLog: nat, high: int, n: nat, i: nat)
    requires i < n && Visit(tableLog, i) <= high
    ensures Visit(tableLog, i) in Order(tableLog, high, n)
    decreases n
  {
    hide Pow2, Visit;
    if i < n - 1 {
      OrderContains(tableLog, high, n - 1, i);
    }
  }

  /** One round visits every cell up to `high` exactly once. */
  lemma RoundIsPermutation(tableLog: nat, high: int)
    requires tableLog >= 4 && -1 <= high < Pow2(tableLog)
    ensures var o := Order(tableLog, high, Pow2(tableLog));
            && |o| == high + 1 && Distinct(o)
            && (forall k | 0 <= k < |o| :: o[k] <= high)
            && (forall c | 0 <= c <= high :: c in o)
  {
    hide Pow2, Visit, Order, Distinct;
    var n := Pow2(tableLog);
    var o := Order(tableLog, high, n);
    OrderDistinct(tableLog, high, n);
    forall k | 0 <= k < |o|
      ensures o[k] <= high
    {
      var i := OrderVisits(tableLog, high, n, k);
    }
    var walk := seq(n, i requires 0 <= i < n => Visit(tableLog, i));
    WalkDistinct(tableLog, walk);
    AllBelow(walk, n);
    forall c | 0 <= c <= high
      ensures c in o
    {
      assert c in walk;
      var i :| 0 <= i < n && walk[i] == c;
      OrderContains(tableLog, high, n, i);
    }
    SizeOfCover(o, high + 1);
  }

  lemma WalkDistinct(tableLog: nat, walk: seq<nat>)
    requires tableLog >= 4 && |walk| == Pow2(tableLog) && forall i | 0 <= i < |walk| :: walk[i] == Visit(tableLog, i)
    ensures Distinct(walk)
  {
    hide Pow2, Visit;
    forall i, j | 0 <= i < j < |walk|
      ensures walk[i] != walk[j]
    {
      VisitsDiffer(tableLog, i, j);
    }
  }

  lemma SizeOfCover(s: seq<nat>, n: nat)
    requires Distinct(s) && (forall k | 0 <= k < |s| :: s[k] < n) && (forall c | 0 <= c < n :: c in s)
    ensures |s| == n
  {
    DistinctSize(s);
    assert Elements(s) == Range(n);
  }
}
