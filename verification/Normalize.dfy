/** Byte histograms, their cumulative form, and the normaliser that scales them to a
    power-of-two total without losing a symbol. */
module Normalize {
  import opened Arith
  import opened Rans64

  const SYMBOLS := 256

  /** Prefix sums: one more entry than there are frequencies, starting at 0. */
  function Cumulate(freqs: seq<nat>): (cum: seq<int>)
    ensures |cum| == |freqs| + 1
    ensures cum[0] == 0
  {
    if freqs == [] then [0]
    else
      var cum := Cumulate(freqs[..|freqs| - 1]);
      cum + [cum[|freqs| - 1] + freqs[|freqs| - 1]]
  }

  function Total(freqs: seq<nat>): int {
    Cumulate(freqs)[|freqs|]
  }

  function Width(cum: seq<int>, j: nat): int
    requires j + 1 < |cum|
  {
    cum[j + 1] - cum[j]
  }

  lemma {:induction false} CumulateStep(freqs: seq<nat>, k: nat)
    requires k < |freqs|
    ensures Width(Cumulate(freqs), k) == freqs[k]
  {
    if k == |freqs| - 1 {
    } else {
      CumulateStep(freqs[..|freqs| - 1], k);
    }
  }

  lemma {:induction false} CumulateMonotone(freqs: seq<nat>, a: nat, b: nat)
    requires a <= b <= |freqs|
    ensures 0 <= Cumulate(freqs)[a] <= Cumulate(freqs)[b]
    decreases b
  {
    if b == 0 {
    } else {
      CumulateStep(freqs, b - 1);
      CumulateMonotone(freqs, if a == b then b - 1 else a, b - 1);
    }
  }

  // -------------------------------------------------- normalisation, as functions

  /** Scale every cumulative frequency to the new total. */
  function Resample(cum: seq<int>, target: nat): (r: seq<int>)
    requires |cum| == SYMBOLS + 1 && cum[SYMBOLS] > 0
    ensures |r| == SYMBOLS + 1
  {
    seq(SYMBOLS + 1, i requires 0 <= i <= SYMBOLS => target * cum[i] / cum[SYMBOLS])
  }

  const NO_DONOR: int := -1
  const NO_FREQ: int := 0xFFFF_FFFF

  /** Frequency of the best donor so far; all ones while there is none. */
  function BestFreq(cum: seq<int>, donor: int): int
    requires -1 <= donor < |cum| - 1
  {
    if donor == NO_DONOR then NO_FREQ else Width(cum, donor)
  }

  /** First symbol below `n` of smallest width above 1. */
  function Donor(cum: seq<int>, n: nat): (d: int)
    requires n < |cum|
    ensures -1 <= d < n
    decreases n, cum
  {
    if n == 0 then NO_DONOR
    else
      var d := Donor(cum, n - 1);
      if 1 < Width(cum, n - 1) < BestFreq(cum, d) then n - 1 else d
  }

  /** Move one slot from symbol `donor` to symbol `i` by shifting what lies between. */
  function Steal(cum: seq<int>, i: nat, donor: nat): (r: seq<int>)
    ensures |r| == |cum|
  {
    seq(|cum|, k requires 0 <= k < |cum| =>
      if donor < k <= i then cum[k] - 1
      else if i < k <= donor then cum[k] + 1
      else cum[k])
  }

  predicate Starved(cum: seq<int>, freqs: seq<nat>, i: nat)
    requires |cum| == |freqs| + 1 && i < |freqs|
  {
    freqs[i] > 0 && Width(cum, i) == 0
  }

  /** The repair of symbol `i`. */
  function Feed(cum: seq<int>, freqs: seq<nat>, i: nat): (r: seq<int>)
    requires |cum| == |freqs| + 1 && i < |freqs|
    ensures |r| == |cum|
  {
    var d := Donor(cum, |freqs|);
    if Starved(cum, freqs, i) && d != NO_DONOR then Steal(cum, i, d) else cum
  }

  function FeedAll(cum: seq<int>, freqs: seq<nat>, n: nat): (r: seq<int>)
    requires |cum| == |freqs| + 1 && n <= |freqs|
    ensures |r| == |cum|
    decreases n, cum
  {
    if n == 0 then cum else Feed(FeedAll(cum, freqs, n - 1), freqs, n - 1)
  }

  ghost predicate Histogram(freqs: seq<nat>, target: nat) {
    && |freqs| == SYMBOLS
    && 0 < Total(freqs) < B32
    && SYMBOLS <= target < NO_FREQ
  }

  function NormalCum(freqs: seq<nat>, target: nat): (cum: seq<int>)
    requires |freqs| == SYMBOLS && Total(freqs) > 0
    ensures |cum| == SYMBOLS + 1
  {
    FeedAll(Resample(Cumulate(freqs), target), freqs, SYMBOLS)
  }

  // -------------------------------------------------------------- what it keeps

  /** Between repairs: the slots are laid out in order over `[0, target]`, unused
      symbols have none, and the first `n` symbols are settled. */
  ghost predicate Fair(cum: seq<int>, freqs: seq<nat>, target: nat, n: nat) {
    && |cum| == SYMBOLS + 1 && |freqs| == SYMBOLS
    && cum[0] == 0 && cum[SYMBOLS] == target
    && (forall k | 0 <= k < SYMBOLS :: 0 <= Width(cum, k))
    && (forall k | 0 <= k < SYMBOLS :: freqs[k] == 0 ==> Width(cum, k) == 0)
    && (forall k | 0 <= k < SYMBOLS && k < n :: freqs[k] > 0 ==> Width(cum, k) > 0)
  }

  lemma {:induction false} FairMonotone(cum: seq<int>, a: nat, b: nat)
    requires a <= b < |cum|
    requires forall k | 0 <= k < |cum| - 1 :: 0 <= Width(cum, k)
    ensures cum[a] <= cum[b]
    decreases b
  {
    if a == b {
    } else {
      FairMonotone(cum, a, b - 1);
      assert 0 <= Width(cum, b - 1);
    }
  }

  lemma ResampleIsFair(freqs: seq<nat>, target: nat)
    requires Histogram(freqs, target)
    ensures Fair(Resample(Cumulate(freqs), target), freqs, target, 0)
  {
    var c := Cumulate(freqs);
    var r := Resample(c, target);
    ScaledEnds(target, c[SYMBOLS]);
    assert r[0] == target * c[0] / c[SYMBOLS];
    forall k | 0 <= k < SYMBOLS
      ensures 0 <= Width(r, k)
      ensures freqs[k] == 0 ==> Width(r, k) == 0
    {
      CumulateStep(freqs, k);
      CumulateMonotone(freqs, 0, k);
      ScaledOrder(target, c[k], c[k + 1], c[SYMBOLS]);
    }
  }

  lemma ScaledEnds(t: nat, d: nat)
    requires d > 0
    ensures t * 0 / d == 0
    ensures t * d / d == t
  {
    DivModUnique(t * d, d, t, 0);
  }

  lemma ScaledOrder(t: nat, a: nat, b: nat, d: nat)
    requires a <= b && d > 0
    ensures t * a / d <= t * b / d
  {
    MulMonotone(a, b, t);
    assert a * t == t * a && b * t == t * b;
    DivOrder(t * a, t * b, d);
  }

  lemma DivOrder(x: nat, y: nat, d: nat)
    requires x <= y && d > 0
    ensures x / d <= y / d
  {
    var q := y / d;
    assert y < (q + 1) * d;
    DivBetween(x, d, 0, q + 1);
  }

  /** Pigeonhole: 256 widths, one of them 0, cannot cover 256 slots or more with
      widths of at most 1, so a donor exists. */
  lemma {:induction false} NarrowBound(cum: seq<int>, n: nat, gap: nat)
    requires n < |cum| && cum[0] == 0
    requires forall k | 0 <= k < n :: Width(cum, k) <= 1
    requires gap < |cum| - 1 && Width(cum, gap) == 0
    ensures cum[n] <= n
    ensures gap < n ==> cum[n] < n
  {
    if n == 0 {
    } else {
      NarrowBound(cum, n - 1, gap);
      assert Width(cum, n - 1) <= 1;
    }
  }

  /** The donor search finds the narrowest width above 1, the first of several. */
  lemma {:induction false} DonorIsBest(cum: seq<int>, n: nat)
    requires n < |cum|
    requires forall k | 0 <= k < n :: Width(cum, k) < NO_FREQ
    ensures var d := Donor(cum, n);
            && (d == NO_DONOR ==> forall k | 0 <= k < n :: Width(cum, k) <= 1)
            && (d != NO_DONOR ==> Width(cum, d) > 1 && forall k | 0 <= k < n && Width(cum, k) > 1 ::
                 if k < d then Width(cum, d) < Width(cum, k) else Width(cum, d) <= Width(cum, k))
  {
    if n == 0 {
    } else {
      DonorIsBest(cum, n - 1);
    }
  }

  lemma WidthsBelow(cum: seq<int>, freqs: seq<nat>, target: nat, i: nat)
    requires Fair(cum, freqs, target, i) && target < NO_FREQ
    ensures forall k | 0 <= k < SYMBOLS :: Width(cum, k) < NO_FREQ
  {
    forall k | 0 <= k < SYMBOLS
      ensures Width(cum, k) < NO_FREQ
    {
      FairMonotone(cum, 0, k);
      FairMonotone(cum, k + 1, SYMBOLS);
    }
  }

  lemma DonorExists(cum: seq<int>, freqs: seq<nat>, target: nat, i: nat)
    requires Fair(cum, freqs, target, i) && i < SYMBOLS && Starved(cum, freqs, i)
    requires SYMBOLS <= target < NO_FREQ
    ensures var d := Donor(cum, SYMBOLS);
            d != NO_DONOR && d != i && 1 < Width(cum, d)
  {
    WidthsBelow(cum, freqs, target, i);
    DonorIsBest(cum, SYMBOLS);
    if Donor(cum, SYMBOLS) == NO_DONOR {
      NarrowBound(cum, SYMBOLS, i);
      assert false;
    }
  }

  /** Stealing changes exactly two widths: the donor loses one slot, `i` gains it. */
  lemma StealWidths(cum: seq<int>, i: nat, donor: nat, k: nat)
    requires i + 1 < |cum| && donor + 1 < |cum| && i != donor && k + 1 < |cum|
    ensures Width(Steal(cum, i, donor), k)
         == Width(cum, k) + (if k == i then 1 else 0) - (if k == donor then 1 else 0)
  {
  }

  lemma FeedKeepsFair(cum: seq<int>, freqs: seq<nat>, target: nat, i: nat)
    requires Fair(cum, freqs, target, i) && i < SYMBOLS
    requires SYMBOLS <= target < NO_FREQ
    ensures Fair(Feed(cum, freqs, i), freqs, target, i + 1)
  {
    if Starved(cum, freqs, i) {
      DonorExists(cum, freqs, target, i);
      var d := Donor(cum, SYMBOLS);
      forall k | 0 <= k < SYMBOLS
        ensures Width(Steal(cum, i, d), k) == Width(cum, k) + (if k == i then 1 else 0) - (if k == d then 1 else 0)
      {
        StealWidths(cum, i, d, k);
      }
    }
  }

  lemma {:induction false} FeedAllIsFair(cum: seq<int>, freqs: seq<nat>, target: nat, n: nat)
    requires Fair(cum, freqs, target, 0) && n <= SYMBOLS
    requires SYMBOLS <= target < NO_FREQ
    ensures Fair(FeedAll(cum, freqs, n), freqs, target, n)
  {
    if n == 0 {
    } else {
      FeedAllIsFair(cum, freqs, target, n - 1);
      FeedKeepsFair(FeedAll(cum, freqs, n - 1), freqs, target, n - 1);
    }
  }

  /** A slot table over `[0, target)` that gives room to exactly the used symbols. */
  ghost predicate SlotTable(cum: seq<int>, freqs: seq<nat>, target: nat) {
    && |cum| == SYMBOLS + 1 && |freqs| == SYMBOLS
    && cum[0] == 0 && cum[SYMBOLS] == target
    && (forall k | 0 <= k < SYMBOLS :: 0 <= Width(cum, k))
    && (forall k | 0 <= k < SYMBOLS :: freqs[k] > 0 <==> Width(cum, k) > 0)
  }

  /** Any usable histogram normalises to a slot table of the target size: nothing is
      lost, nothing appears, the widths sum to the target. */
  lemma NormaliseIsSlotTable(freqs: seq<nat>, target: nat)
    requires Histogram(freqs, target)
    ensures SlotTable(NormalCum(freqs, target), freqs, target)
  {
    ResampleIsFair(freqs, target);
    FeedAllIsFair(Resample(Cumulate(freqs), target), freqs, target, SYMBOLS);
  }

  // ------------------------------------------------------------ how far it scales

  /** Rounding the scaled boundaries down leaves the symbol no slot. */
  ghost predicate Loses(freqs: seq<nat>, target: nat, i: nat)
    requires i < |freqs| && Total(freqs) > 0
  {
    var c := Cumulate(freqs);
    freqs[i] > 0 && target * c[i] / Total(freqs) == target * c[i + 1] / Total(freqs)
  }

  /** How many of the first `n` symbols lose all their slots. */
  ghost function Lost(freqs: seq<nat>, target: nat, n: nat): nat
    requires n <= |freqs| && Total(freqs) > 0
  {
    if n == 0 then 0 else Lost(freqs, target, n - 1) + (if Loses(freqs, target, n - 1) then 1 else 0)
  }

  /** `x` is `target * a / total` up to rounding and `slip` slots. */
  ghost predicate Scaled(x: int, a: int, total: int, target: nat, slip: nat) {
    (x - slip) * total <= target * a < (x + slip + 1) * total
  }

  /** The law of the normaliser. Every boundary is the scaled one, rounded down, up to one slot
      for every symbol that would lose all its slots. Such a symbol gets one slot. Any other
      has no more than its share of the target, rounded up, and when no symbol loses all, no
      less than its share rounded down. */
  ghost predicate Proportional(freqs: seq<nat>, target: nat, cum: seq<int>)
    requires |freqs| == SYMBOLS && Total(freqs) > 0
  {
    var c, total, lost := Cumulate(freqs), Total(freqs), Lost(freqs, target, SYMBOLS);
    && |cum| == SYMBOLS + 1
    && (forall i | 0 <= i <= SYMBOLS :: Scaled(cum[i], c[i], total, target, lost))
    && (forall i | 0 <= i < SYMBOLS && Loses(freqs, target, i) :: Width(cum, i) == 1)
    && (forall i | 0 <= i < SYMBOLS && !Loses(freqs, target, i) :: Width(cum, i) * total < target * freqs[i] + total)
    && (lost == 0 ==> forall i | 0 <= i < SYMBOLS :: target * freqs[i] - total < Width(cum, i) * total)
  }

  /** One repair: the symbol gains a slot, the first of the narrowest symbols with more than one
      slot loses it. */
  lemma FeedTakesNarrowest(cum: seq<int>, freqs: seq<nat>, target: nat, i: nat) returns (d: nat)
    requires Fair(cum, freqs, target, i) && i < SYMBOLS && Starved(cum, freqs, i)
    requires SYMBOLS <= target < NO_FREQ
    ensures d < SYMBOLS && d != i && Width(cum, d) > 1
    ensures forall k | 0 <= k < SYMBOLS && Width(cum, k) > 1 :: if k < d then Width(cum, d) < Width(cum, k) else Width(cum, d) <= Width(cum, k)
    ensures forall k | 0 <= k < SYMBOLS ::
              Width(Feed(cum, freqs, i), k) == Width(cum, k) + (if k == i then 1 else 0) - (if k == d then 1 else 0)
    ensures forall k | 0 <= k <= SYMBOLS :: -1 <= Feed(cum, freqs, i)[k] - cum[k] <= 1
  {
    DonorExists(cum, freqs, target, i);
    d := Donor(cum, SYMBOLS);
    WidthsBelow(cum, freqs, target, i);
    DonorIsBest(cum, SYMBOLS);
    forall k | 0 <= k < SYMBOLS
      ensures Width(Steal(cum, i, d), k) == Width(cum, k) + (if k == i then 1 else 0) - (if k == d then 1 else 0)
    {
      StealWidths(cum, i, d, k);
    }
  }

  /** What the repairs of the first `n` symbols have made of the scaled boundaries `r`. */
  ghost predicate Repaired(r: seq<int>, cum: seq<int>, freqs: seq<nat>, target: nat, n: nat)
    requires |freqs| == SYMBOLS && Total(freqs) > 0 && n <= SYMBOLS
  {
    && |r| == |cum| == SYMBOLS + 1
    && (forall k | 0 <= k <= SYMBOLS :: r[k] - Lost(freqs, target, n) <= cum[k] <= r[k] + Lost(freqs, target, n))
    && forall k | 0 <= k < SYMBOLS ::
         if Loses(freqs, target, k) then Width(cum, k) == (if k < n then 1 else 0)
         else Width(cum, k) <= Width(r, k) && (Width(r, k) > 0 ==> Width(cum, k) > 0)
  }

  lemma {:induction false} RepairsSoFar(freqs: seq<nat>, target: nat, n: nat)
    requires Histogram(freqs, target) && n <= SYMBOLS
    ensures var r := Resample(Cumulate(freqs), target);
            Repaired(r, FeedAll(r, freqs, n), freqs, target, n)
    decreases n
  {
    TargetInRange(freqs, target);
    hide Histogram, Fair, Resample, Feed, Loses, Donor;
    var r := Resample(Cumulate(freqs), target);
    if n == 0 {
      ScaledWidths(freqs, target);
      assert FeedAll(r, freqs, 0) == r;
      NothingRepaired(r, freqs, target);
    } else {
      RepairsSoFar(freqs, target, n - 1);
      ResampleIsFair(freqs, target);
      FeedAllIsFair(r, freqs, target, n - 1);
      RepairOne(r, FeedAll(r, freqs, n - 1), freqs, target, n - 1);
    }
  }

  lemma TargetInRange(freqs: seq<nat>, target: nat)
    requires Histogram(freqs, target)
    ensures |freqs| == SYMBOLS && 0 < Total(freqs) && SYMBOLS <= target < NO_FREQ
  {
  }

  /** A scaled symbol is used and has no slots exactly when it loses them all. */
  lemma ScaledWidths(freqs: seq<nat>, target: nat)
    requires |freqs| == SYMBOLS && Total(freqs) > 0
    ensures var r := Resample(Cumulate(freqs), target);
            && (forall k | 0 <= k < SYMBOLS :: Loses(freqs, target, k) <==> freqs[k] > 0 && Width(r, k) == 0)
  {
  }

  lemma NothingRepaired(r: seq<int>, freqs: seq<nat>, target: nat)
    requires |freqs| == SYMBOLS && Total(freqs) > 0 && |r| == SYMBOLS + 1
    requires forall k | 0 <= k < SYMBOLS :: Loses(freqs, target, k) <==> freqs[k] > 0 && Width(r, k) == 0
    ensures Repaired(r, r, freqs, target, 0)
  {
    assert Lost(freqs, target, 0) == 0;
    hide Loses, Lost, Width;
  }

  lemma RepairOne(r: seq<int>, cum: seq<int>, freqs: seq<nat>, target: nat, i: nat)
    requires |freqs| == SYMBOLS && Total(freqs) > 0 && SYMBOLS <= target < NO_FREQ && i < SYMBOLS
    requires r == Resample(Cumulate(freqs), target)
    requires Fair(cum, freqs, target, i) && Repaired(r, cum, freqs, target, i)
    ensures Repaired(r, Feed(cum, freqs, i), freqs, target, i + 1)
  {
    ScaledWidths(freqs, target);
    hide Resample, Donor, Loses, Steal, Fair;
    if Loses(freqs, target, i) {
      assert Starved(cum, freqs, i);
      var d := FeedTakesNarrowest(cum, freqs, target, i);
      OneRepaired(r, cum, Feed(cum, freqs, i), freqs, target, i, d);
    } else {
      assert !Starved(cum, freqs, i);
      NoneRepaired(r, cum, freqs, target, i);
    }
  }

  lemma OneRepaired(r: seq<int>, cum: seq<int>, fed: seq<int>, freqs: seq<nat>, target: nat, i: nat, d: nat)
    requires |freqs| == SYMBOLS && Total(freqs) > 0 && i < SYMBOLS && d < SYMBOLS && d != i
    requires Repaired(r, cum, freqs, target, i) && Loses(freqs, target, i) && |fed| == |cum| && Width(cum, d) > 1
    requires forall k | 0 <= k < SYMBOLS :: Width(fed, k) == Width(cum, k) + (if k == i then 1 else 0) - (if k == d then 1 else 0)
    requires forall k | 0 <= k <= SYMBOLS :: -1 <= fed[k] - cum[k] <= 1
    ensures Repaired(r, fed, freqs, target, i + 1)
  {
    hide Loses, Width;
  }

  lemma NoneRepaired(r: seq<int>, cum: seq<int>, freqs: seq<nat>, target: nat, i: nat)
    requires |freqs| == SYMBOLS && Total(freqs) > 0 && i < SYMBOLS
    requires Repaired(r, cum, freqs, target, i) && !Loses(freqs, target, i)
    ensures Repaired(r, cum, freqs, target, i + 1)
  {
    hide Loses, Width;
  }

  /** The normaliser is proportional, for every usable histogram. */
  lemma NormaliseIsProportional(freqs: seq<nat>, target: nat)
    requires Histogram(freqs, target)
    ensures Proportional(freqs, target, NormalCum(freqs, target))
  {
    hide Loses, Feed, Fair;
    var c, total, r, cum := Cumulate(freqs), Total(freqs), Resample(Cumulate(freqs), target), NormalCum(freqs, target);
    var lost := Lost(freqs, target, SYMBOLS);
    RepairsSoFar(freqs, target, SYMBOLS);
    hide FeedAll, Resample;
    forall i | 0 <= i <= SYMBOLS
      ensures Scaled(cum[i], c[i], total, target, lost)
    {
      RoundedDown(freqs, target, i);
      Slipped(r[i], cum[i], c[i], total, target, lost);
    }
    forall i | 0 <= i < SYMBOLS
      ensures !Loses(freqs, target, i) ==> Width(cum, i) * total < target * freqs[i] + total
      ensures lost == 0 ==> target * freqs[i] - total < Width(cum, i) * total
    {
      RoundedDown(freqs, target, i);
      RoundedDown(freqs, target, i + 1);
      CumulateStep(freqs, i);
      WidthBounds(r[i], r[i + 1], c[i], c[i + 1], total, target);
      if !Loses(freqs, target, i) {
        MulMonotone(Width(cum, i), Width(r, i), total);
      }
    }
  }

  lemma RoundedDown(freqs: seq<nat>, target: nat, i: nat)
    requires |freqs| == SYMBOLS && Total(freqs) > 0 && i <= SYMBOLS
    ensures Scaled(Resample(Cumulate(freqs), target)[i], Cumulate(freqs)[i], Total(freqs), target, 0)
  {
    var x, d := target * Cumulate(freqs)[i], Total(freqs);
    var q := x / d;
    assert x == q * d + x % d;
    assert (q + 1) * d == q * d + d;
  }

  lemma Slipped(r: int, x: int, a: int, total: int, target: nat, slip: nat)
    requires Scaled(r, a, total, target, 0) && total > 0 && r - slip <= x <= r + slip
    ensures Scaled(x, a, total, target, slip)
  {
    MulMonotone(x - slip, r, total);
    MulMonotone(r + 1, x + slip + 1, total);
  }

  lemma WidthBounds(x: int, y: int, a: int, b: int, total: int, target: nat)
    requires Scaled(x, a, total, target, 0) && Scaled(y, b, total, target, 0)
    ensures target * (b - a) - total < (y - x) * total < target * (b - a) + total
  {
    assert target * (b - a) == target * b - target * a;
    assert (y - x) * total == y * total - x * total;
    assert (x + 1) * total == x * total + total && (y + 1) * total == y * total + total;
  }

  function Widths(cum: seq<int>): (f: seq<nat>)
    requires |cum| > 0
    requires forall k | 0 <= k < |cum| - 1 :: 0 <= Width(cum, k)
    ensures |f| == |cum| - 1
    ensures forall k | 0 <= k < |f| :: f[k] == Width(cum, k)
  {
    seq(|cum| - 1, k requires 0 <= k < |cum| - 1 => Width(cum, k))
  }

  lemma {:induction false} CumulateWidths(cum: seq<int>)
    requires |cum| > 0 && cum[0] == 0
    requires forall k | 0 <= k < |cum| - 1 :: 0 <= Width(cum, k)
    ensures Cumulate(Widths(cum)) == cum
    decreases |cum|
  {
    var n := |cum| - 1;
    if n == 0 {
    } else {
      var front := cum[..n];
      FrontWidths(cum, front);
      CumulateWidths(front);
      LastCumulated(Widths(cum), front, Width(cum, n - 1));
      assert cum == front + [cum[n]];
    }
  }

  lemma FrontWidths(cum: seq<int>, front: seq<int>)
    requires |cum| > 1 && front == cum[..|cum| - 1]
    requires forall k | 0 <= k < |cum| - 1 :: 0 <= Width(cum, k)
    ensures forall k | 0 <= k < |front| - 1 :: Width(front, k) == Width(cum, k) >= 0
    ensures Widths(cum) == Widths(front) + [Width(cum, |cum| - 2)]
  {
  }

  lemma LastCumulated(w: seq<nat>, front: seq<int>, last: nat)
    requires |w| > 0 && |front| == |w| && w[|w| - 1] == last && Cumulate(w[..|w| - 1]) == front
    ensures Cumulate(w) == front + [front[|front| - 1] + last]
  {
  }

  /** Normalising a normalised table changes nothing, so the decoder recovers the
      encoder's table from the transmitted frequencies. */
  lemma NormaliseIsIdempotent(cum: seq<int>, freqs: seq<nat>, target: nat)
    requires SlotTable(cum, freqs, target) && target > 0
    ensures Total(Widths(cum)) == target
    ensures NormalCum(Widths(cum), target) == cum
  {
    CumulateWidths(cum);
    var f := Widths(cum);
    forall i | 0 <= i <= SYMBOLS
      ensures target * cum[i] / target == cum[i]
    {
      DivModUnique(target * cum[i], target, cum[i], 0);
    }
    assert Resample(Cumulate(f), target) == cum;
    SettledStaysPut(cum, f, SYMBOLS);
  }

  lemma {:induction false} SettledStaysPut(cum: seq<int>, freqs: seq<nat>, n: nat)
    requires |cum| == |freqs| + 1 && n <= |freqs|
    requires forall k | 0 <= k < |freqs| :: freqs[k] == Width(cum, k)
    ensures FeedAll(cum, freqs, n) == cum
  {
    if n == 0 {
    } else {
      SettledStaysPut(cum, freqs, n - 1);
      assert freqs[n - 1] == Width(cum, n - 1);
    }
  }
}
