/** LZFSE's normalisation: occurrence counts become frequencies that sum exactly to the
    number of states, and no symbol that occurs gets frequency zero. */
module FseNormalize {
  import opened Arith
  import opened FseTables

  /** What can be taken away without making a frequency zero. */
  function Slack(freq: seq<nat>): nat {
    if freq == [] then 0
    else
      var f := freq[|freq| - 1];
      Slack(freq[..|freq| - 1]) + (if f > 1 then f - 1 else 0)
  }

  /** Symbols that occur. */
  function Occurring(t: seq<nat>): nat {
    if t == [] then 0 else Occurring(t[..|t| - 1]) + (if t[|t| - 1] > 0 then 1 else 0)
  }

  lemma {:induction false} SumUpdate(s: seq<nat>, i: nat, v: nat)
    requires i < |s|
    ensures Sum(s[i := v]) == Sum(s) - s[i] + v
    decreases s
  {
    var last := |s| - 1;
    if i == last {
      assert s[i := v][..last] == s[..last];
    } else {
      assert s[i := v][..last] == s[..last][i := v];
      SumUpdate(s[..last], i, v);
    }
  }

  lemma {:induction false} SlackUpdate(s: seq<nat>, i: nat, v: nat)
    requires i < |s| && s[i] >= v >= 1
    ensures Slack(s[i := v]) == Slack(s) - s[i] + v
    decreases s
  {
    var last := |s| - 1;
    if i == last {
      assert s[i := v][..last] == s[..last];
    } else {
      assert s[i := v][..last] == s[..last][i := v];
      SlackUpdate(s[..last], i, v);
    }
  }

  lemma {:induction false} NoSlack(s: seq<nat>)
    requires forall i | 0 <= i < |s| :: s[i] <= 1
    ensures Slack(s) == 0
    decreases s
  {
    if s == [] {
    } else {
      NoSlack(s[..|s| - 1]);
    }
  }

  /** Frequencies that are positive where a symbol occurs leave at least the difference to
      the number of occurring symbols as slack. */
  lemma {:induction false} SlackOfUsed(freq: seq<nat>, t: seq<nat>)
    requires |freq| == |t|
    requires forall i | 0 <= i < |t| :: freq[i] > 0 <==> t[i] > 0
    ensures Slack(freq) == Sum(freq) - Occurring(t)
    decreases freq
  {
    if freq == [] {
    } else {
      SlackOfUsed(freq[..|freq| - 1], t[..|t| - 1]);
    }
  }

  /** No frequency grew, and none became zero. */
  ghost predicate Trimmed(before: seq<nat>, after: seq<nat>) {
    && |before| == |after|
    && forall i | 0 <= i < |before| :: after[i] <= before[i] && (before[i] > 0 ==> after[i] > 0)
  }

  /** What a pass with this shift can take from one frequency. */
  function Spare(f: nat, shift: nat): (n: nat)
    ensures n <= f && (f > 0 ==> n < f)
  {
    if f > 1 then Shifted(f - 1, shift) else 0
  }

  /** A pass goes from the first symbol to the last and takes from each what it can, until
      nothing is left to be taken. */
  ghost predicate Passed(before: seq<nat>, after: seq<nat>, overrun0: nat, overrun: nat, shift: nat) {
    && |before| == |after| && Sum(after) - overrun == Sum(before) - overrun0
    && (forall i | 0 <= i < |before| :: 0 <= before[i] - after[i] <= Spare(before[i], shift))
    && (forall i, j | 0 <= i < j < |before| && after[j] < before[j] :: before[i] - after[i] == Spare(before[i], shift))
    && (overrun > 0 ==> forall i | 0 <= i < |before| :: before[i] - after[i] == Spare(before[i], shift))
  }

  /** One pass of fse_adjust_freqs. Without a shift it takes all slack there is, or all that
      is still too much. */
  method AdjustPass(freq: array<nat>, overrun0: nat, shift: nat) returns (overrun: nat)
    requires 0 < overrun0 <= Slack(freq[..])
    modifies freq
    ensures Trimmed(old(freq[..]), freq[..])
    ensures Sum(freq[..]) - overrun == old(Sum(freq[..])) - overrun0
    ensures overrun <= Slack(freq[..])
    ensures shift == 0 ==> overrun == 0
    ensures Passed(old(freq[..]), freq[..], overrun0, overrun, shift)
  {
    hide Sum, Slack, Pow2, Shifted, Spare, Trimmed, PassedTo;
    overrun := overrun0;
    var sym := 0;
    ghost var was := freq[..];
    PassBegins(was, overrun0, shift);
    while sym < freq.Length && overrun != 0
      invariant sym <= freq.Length && overrun <= Slack(freq[..])
      invariant Sum(freq[..]) - overrun == Sum(was) - overrun0
      invariant PassedTo(was, freq[..], overrun, shift, sym)
    {
      SpareOf(freq[sym], shift);
      if freq[sym] > 1 {
        var n := Shifted(freq[sym] - 1, shift);
        if n > overrun {
          n := overrun;
        }
        SumUpdate(freq[..], sym, freq[sym] - n);
        SlackUpdate(freq[..], sym, freq[sym] - n);
        ghost var s := freq[..];
        freq[sym] := freq[sym] - n;
        assert freq[..] == s[sym := s[sym] - n];
        PassGoesOn(was, s, overrun, shift, sym, n);
        overrun := overrun - n;
      } else {
        assert freq[..] == freq[..][sym := freq[sym] - 0];
        PassGoesOn(was, freq[..], overrun, shift, sym, 0);
      }
      sym := sym + 1;
    }
    PassEnds(was, freq[..], overrun0, overrun, shift, sym);
  }

  /** A pass that has come to symbol `sym`. */
  ghost predicate PassedTo(was: seq<nat>, now: seq<nat>, overrun: nat, shift: nat, sym: nat) {
    && |was| == |now| && sym <= |was|
    && (forall i | sym <= i < |was| :: now[i] == was[i])
    && (forall i | 0 <= i < sym :: 0 <= was[i] - now[i] <= Spare(was[i], shift))
    && (forall i, j | 0 <= i < j < sym && now[j] < was[j] :: was[i] - now[i] == Spare(was[i], shift))
    && (overrun > 0 ==> forall i | 0 <= i < sym :: was[i] - now[i] == Spare(was[i], shift))
  }

  lemma PassBegins(was: seq<nat>, overrun: nat, shift: nat)
    ensures PassedTo(was, was, overrun, shift, 0)
  {
  }

  lemma PassGoesOn(was: seq<nat>, now: seq<nat>, overrun: nat, shift: nat, sym: nat, n: nat)
    requires PassedTo(was, now, overrun, shift, sym) && sym < |was| && overrun > 0
    requires n == if Spare(now[sym], shift) > overrun then overrun else Spare(now[sym], shift)
    ensures PassedTo(was, now[sym := now[sym] - n], overrun - n, shift, sym + 1)
  {
    hide Spare;
  }

  lemma PassEnds(was: seq<nat>, now: seq<nat>, overrun0: nat, overrun: nat, shift: nat, sym: nat)
    requires PassedTo(was, now, overrun, shift, sym) && (sym == |was| || overrun == 0)
    requires Sum(now) - overrun == Sum(was) - overrun0 && overrun <= Slack(now)
    ensures Trimmed(was, now) && Passed(was, now, overrun0, overrun, shift)
    ensures shift == 0 ==> overrun == 0
  {
    hide Sum, Slack, Spare;
    if shift == 0 && overrun > 0 {
      forall i | 0 <= i < |now|
        ensures now[i] <= 1
      {
        SpareOf(was[i], shift);
      }
      NoSlack(now);
    }
  }

  lemma SpareOf(f: nat, shift: nat)
    ensures Spare(f, shift) == if f > 1 then Shifted(f - 1, shift) else 0
    ensures shift == 0 && f > 1 ==> Spare(f, shift) == f - 1
    ensures f <= 1 ==> Spare(f, shift) == 0
  {
  }

  function Shifted(x: nat, shift: nat): (r: nat)
    ensures r <= x && (shift == 0 ==> r == x)
  {
    QuotientIsNat(x, Pow2(shift));
    x / Pow2(shift)
  }

  /** Passes with shifts from 3 downwards, the last one without a shift, as long as something
      is left to be taken: `steps` are the frequencies and `left` the overrun before each. */
  ghost predicate Passes(steps: seq<seq<nat>>, left: seq<nat>) {
    && |steps| == |left| && 1 <= |steps| <= 5
    && forall i | 0 <= i < |steps| - 1 :: left[i] > 0 && Passed(steps[i], steps[i + 1], left[i], left[i + 1], 3 - i)
  }

  ghost predicate Adjusted(before: seq<nat>, after: seq<nat>, overrun: nat) {
    exists steps, left :: Passes(steps, left) && steps[0] == before && steps[|steps| - 1] == after
                          && left[0] == overrun && left[|left| - 1] == 0
  }

  lemma OnePassMore(steps: seq<seq<nat>>, left: seq<nat>, after: seq<nat>, overrun: nat)
    requires Passes(steps, left) && |steps| <= 4 && left[|left| - 1] > 0
    requires Passed(steps[|steps| - 1], after, left[|left| - 1], overrun, 4 - |steps|)
    ensures Passes(steps + [after], left + [overrun])
  {
    hide Passed;
  }

  /** fse_adjust_freqs: passes with shifts 3, 2, 1 and 0 are enough. */
  method AdjustFreqs(freq: array<nat>, overrun0: nat)
    requires overrun0 <= Slack(freq[..])
    modifies freq
    ensures Trimmed(old(freq[..]), freq[..])
    ensures Sum(freq[..]) == old(Sum(freq[..])) - overrun0
    ensures Adjusted(old(freq[..]), freq[..], overrun0)
  {
    hide Sum, Slack, Passed, Passes;
    var overrun: nat, shift := overrun0, 3;
    ghost var steps: seq<seq<nat>>, left: seq<nat> := [freq[..]], [overrun0];
    NoPass(freq[..], overrun0);
    while overrun != 0
      invariant -1 <= shift <= 3 && |steps| == |left| == 4 - shift
      invariant overrun != 0 ==> shift >= 0
      invariant overrun <= Slack(freq[..])
      invariant Trimmed(old(freq[..]), freq[..])
      invariant Sum(freq[..]) - overrun == old(Sum(freq[..])) - overrun0
      invariant Passes(steps, left) && steps[0] == old(freq[..]) && left[0] == overrun0
      invariant steps[|steps| - 1] == freq[..] && left[|left| - 1] == overrun
      decreases shift
    {
      ghost var o := overrun;
      overrun := AdjustPass(freq, overrun, shift);
      OnePassMore(steps, left, freq[..], overrun);
      steps, left := steps + [freq[..]], left + [overrun];
      shift := shift - 1;
    }
  }

  lemma NoPass(freq: seq<nat>, overrun: nat)
    ensures Passes([freq], [overrun])
  {
  }

  /** The four passes take up to an eighth, a quarter, a half and all of what is above 1. */
  lemma SpareByShift(f: nat)
    requires f > 0
    ensures Spare(f, 3) == (f - 1) / 8 && Spare(f, 2) == (f - 1) / 4 && Spare(f, 1) == (f - 1) / 2 && Spare(f, 0) == f - 1
  {
    Pow2Values();
    assert Pow2(3) == 8 && Pow2(2) == 4 && Pow2(1) == 2;
  }

  /** An eighth of what each frequency has above 1, all together. */
  function Eighths(freq: seq<nat>): nat {
    if freq == [] then 0
    else
      var f := freq[|freq| - 1];
      Eighths(freq[..|freq| - 1]) + (if f > 0 then (f - 1) / 8 else 0)
  }

  /** While an eighth of every frequency is enough, no symbol loses more than that. */
  lemma EighthIsEnough(before: seq<nat>, after: seq<nat>, overrun: nat, i: nat)
    requires Adjusted(before, after, overrun) && overrun <= Eighths(before) && i < |before|
    ensures |after| == |before| && after[i] <= before[i]
    ensures before[i] > 0 ==> before[i] - after[i] <= (before[i] - 1) / 8
  {
    hide Passed, Spare, Sum, Eighths;
    var steps, left :| Passes(steps, left) && steps[0] == before && steps[|steps| - 1] == after
                       && left[0] == overrun && left[|left| - 1] == 0;
    if |steps| > 1 {
      assert Passed(steps[0], steps[1], left[0], left[1], 3);
      if left[1] > 0 {
        AllTakeEighths(steps[0], steps[1], left[0], left[1]);
      }
      assert |steps| == 2;
      PassTakesSpare(steps[0], steps[1], left[0], left[1], 3, i);
      if before[i] > 0 {
        SpareByShift(before[i]);
      }
    }
  }

  lemma AllTakeEighths(before: seq<nat>, after: seq<nat>, o: nat, o': nat)
    requires Passed(before, after, o, o', 3) && o' > 0
    ensures o > Eighths(before)
  {
    hide Spare;
    EighthsTaken(before, after);
  }

  lemma {:induction false} EighthsTaken(before: seq<nat>, after: seq<nat>)
    requires |before| == |after| && forall i | 0 <= i < |before| :: before[i] == after[i] + Spare(before[i], 3)
    ensures Sum(before) == Sum(after) + Eighths(before)
    decreases |before|
  {
    hide Spare;
    if before == [] {
    } else {
      var f := before[|before| - 1];
      if f > 0 {
        SpareByShift(f);
      } else {
        SpareOf(f, 3);
      }
      EighthsTaken(before[..|before| - 1], after[..|after| - 1]);
    }
  }

  lemma PassTakesSpare(before: seq<nat>, after: seq<nat>, o: nat, o': nat, shift: nat, i: nat)
    requires Passed(before, after, o, o', shift) && i < |before|
    ensures |after| == |before| && 0 <= before[i] - after[i] <= Spare(before[i], shift)
  {
  }

  /** When more has to go than there is slack, no choice of amounts keeps every used symbol. */
  lemma {:induction false} SlackIsNeeded(before: seq<nat>, after: seq<nat>)
    requires Trimmed(before, after)
    ensures Sum(before) - Sum(after) <= Slack(before)
    decreases before
  {
    if before == [] {
    } else {
      SlackIsNeeded(before[..|before| - 1], after[..|after| - 1]);
    }
  }

  // -------------------------------------------------------------------- rescaling

  const B31 := 0x8000_0000
  const B30 := 0x4000_0000

  /** The share of a count, rounded to nearest in fixed-point arithmetic; one at least for a
      symbol that occurs. */
  function Share(n: nat, step: nat, count: nat): nat
    requires n > 0 && Log(n) <= 30
  {
    QuotientIsNat(count * step, Pow2(30 - Log(n)));
    var f := (count * step / Pow2(30 - Log(n)) + 1) / 2;
    if f == 0 && count != 0 then 1 else f
  }

  lemma ShareFits(n: nat, total: nat, count: nat)
    requires States(n) && Log(n) <= 30 && 0 < count <= total
    ensures 0 <= count * (B31 / total) <= B31
    ensures 1 <= Share(n, B31 / total, count) <= n
  {
    hide Log, Pow2;
    var step := B31 / total;
    MulMonotone(count, total, step);
    assert step * total <= B31;
    assert 0 <= count * step;
    Pow2Add(30 - Log(n), Log(n));
    Pow2Of31();
    var p := Pow2(30 - Log(n));
    assert 2 * n * p == B31 by { assert 2 * n * p == 2 * (p * n); }
    DivBetween(count * step, p, 0, 2 * n + 1) by { assert (2 * n + 1) * p == 2 * n * p + p; }
  }

  /** A share is the count's part of the states, `n * count / total`, up to one half upwards,
      and downwards up to one half and what the fixed-point step loses. */
  ghost predicate Near(n: nat, total: nat, count: nat, f: nat) {
    && (f == 0 <==> count == 0)
    && (f > 1 ==> (2 * f - 1) * total <= 2 * n * count)
    && (total > 0 ==> 2 * n * count * B30 < ((2 * f + 1) * B30 + n * count) * total)
  }

  lemma ShareIsNear(n: nat, total: nat, count: nat)
    requires States(n) && Log(n) <= 30 && 0 < count <= total
    ensures Near(n, total, count, Share(n, B31 / total, count))
  {
    hide Log, Pow2, Share;
    var step, p := B31 / total, Pow2(30 - Log(n));
    StepBounds(total);
    Pow2Add(30 - Log(n), Log(n));
    Pow2Of31();
    var q, f := ShareOfQuotient(n, step, count);
    NotFarAbove(n, total, count, step, p, q, f);
    NotFarBelow(n, total, count, step, p, q, f);
    if f == 0 {
      NotFarBelow(n, total, count, step, p, q, 1);
    }
  }

  lemma StepBounds(total: nat)
    requires total > 0
    ensures total * (B31 / total) <= B31 < total * (B31 / total) + total
  {
  }

  /** The fixed-point quotient and its half, rounded up. */
  lemma ShareOfQuotient(n: nat, step: nat, count: nat) returns (q: nat, f: nat)
    requires n > 0 && Log(n) <= 30
    ensures var p := Pow2(30 - Log(n)); q * p <= count * step < q * p + p
    ensures 2 * f <= q + 1 && q <= 2 * f
    ensures Share(n, step, count) == if f == 0 && count != 0 then 1 else f
  {
    hide Log, Pow2;
    var p := Pow2(30 - Log(n));
    QuotientIsNat(count * step, p);
    q := count * step / p;
    f := (q + 1) / 2;
    QuotientBounds(count * step, p);
  }

  lemma QuotientBounds(x: nat, p: nat)
    requires p > 0
    ensures x / p * p <= x < x / p * p + p
  {
  }

  lemma NotFarAbove(n: nat, total: nat, count: nat, step: nat, p: nat, q: nat, f: nat)
    requires n * p == B30 && p > 0 && total * step <= B31 && q * p <= count * step && 2 * f <= q + 1
    ensures f > 0 ==> (2 * f - 1) * total <= 2 * n * count
  {
    if f > 0 {
      MulMonotone(2 * f - 1, q, p);
      MulMonotone((2 * f - 1) * p, count * step, total);
      MulMonotone(total * step, B31, count);
      assert count * step * total == total * step * count;
      assert B31 * count == 2 * n * count * p by { assert 2 * n * count * p == 2 * count * (n * p); }
      assert (2 * f - 1) * p * total == (2 * f - 1) * total * p;
      CancelLeq((2 * f - 1) * total, 2 * n * count, p);
    }
  }

  lemma CancelLeq(a: int, b: int, p: int)
    requires p > 0 && a * p <= b * p
    ensures a <= b
  {
    assert (b + 1) * p == b * p + p;
    if a > b {
      MulMonotone(b + 1, a, p);
    }
  }

  lemma NotFarBelow(n: nat, total: nat, count: nat, step: nat, p: nat, q: nat, f: nat)
    requires n * p == B30 && p > 0 && n > 0 && total > 0 && B31 < total * step + total
    requires count * step < q * p + p && q <= 2 * f
    ensures 2 * n * count * B30 < ((2 * f + 1) * B30 + n * count) * total
  {
    var g := 2 * f + 1;
    StepLoss(total, count, step);
    MulMonotone(q + 1, g, p);
    assert (q + 1) * p == q * p + p;
    ProductBelow(count * step, g * p, total);
    Spread(n, total, count, p, g);
    ProductBelow(B31 * count, g * p * total + total * count, n);
    Doubles(n, count);
  }

  lemma StepLoss(total: nat, count: nat, step: nat)
    requires B31 < total * step + total
    ensures B31 * count <= count * step * total + total * count
  {
    MulMonotone(B31, total * step + total, count);
    assert (total * step + total) * count == total * step * count + total * count;
    assert total * step * count == count * step * total;
  }

  lemma ProductBelow(a: int, b: int, c: int)
    requires a < b && c > 0
    ensures a * c < b * c
  {
    MulMonotone(a + 1, b, c);
    assert (a + 1) * c == a * c + c;
  }

  lemma Doubles(n: nat, count: nat)
    ensures B31 * count * n == 2 * n * count * B30
  {
    assert B31 * count * n == B31 * (n * count);
    assert 2 * n * count * B30 == 2 * (n * count) * B30;
  }

  lemma Spread(n: nat, total: nat, count: nat, p: nat, g: nat)
    requires n * p == B30
    ensures (g * p * total + total * count) * n == (g * B30 + n * count) * total
  {
    assert g * p * total * n == g * (n * p) * total;
    assert (g * p * total + total * count) * n == g * p * total * n + total * count * n;
    assert (g * B30 + n * count) * total == g * B30 * total + n * count * total;
  }

  /** A larger count never gets a smaller share. */
  lemma ShareMonotone(n: nat, step: nat, a: nat, b: nat)
    requires n > 0 && Log(n) <= 30 && a <= b
    ensures Share(n, step, a) <= Share(n, step, b)
  {
    hide Log, Pow2;
    var p := Pow2(30 - Log(n));
    MulMonotone(a, b, step);
    QuotientMonotone(a * step, b * step, p);
  }

  lemma QuotientMonotone(x: nat, y: nat, d: nat)
    requires x <= y && d > 0
    ensures x / d <= y / d
  {
    var q := y / d;
    assert y < (q + 1) * d;
    DivBetween(x, d, 0, q + 1);
  }

  lemma Pow2Of31()
    ensures Pow2(30) == B30 && 2 * B30 == B31
  {
    Pow2Values();
    assert Pow2(31) == 2 * Pow2(30);
  }

  lemma ShareOfNothing(n: nat, step: nat)
    requires n > 0 && Log(n) <= 30
    ensures Share(n, step, 0) == 0
  {
    hide Pow2;
    DivModUnique(0, Pow2(30 - Log(n)), 0, 0);
  }

  method Total(t: seq<nat>) returns (total: nat)
    ensures total == Sum(t)
  {
    total := 0;
    for i := 0 to |t|
      invariant total == Sum(t[..i])
    {
      assert t[..i + 1][..i] == t[..i];
      total := total + t[i];
    }
    assert t[..|t|] == t;
  }

  lemma {:induction false} CountBelowSum(t: seq<nat>, i: nat)
    requires i < |t|
    ensures t[i] <= Sum(t)
  {
    SumAt(t, i);
  }

  /** Shares of the counts: each near its part, and none smaller than that of a smaller count. */
  ghost predicate Shares(n: nat, t: seq<nat>, s: seq<nat>) {
    && |s| == |t|
    && (forall i | 0 <= i < |t| :: Near(n, Sum(t), t[i], s[i]))
    && (forall i, j | 0 <= i < |t| && 0 <= j < |t| && t[i] <= t[j] :: s[i] <= s[j])
  }

  /** The first symbol with the largest share. */
  ghost predicate Leads(s: seq<nat>, m: nat) {
    m < |s| && forall i | 0 <= i < |s| :: if i < m then s[i] < s[m] else s[i] <= s[m]
  }

  /** What becomes of the shares: the first symbol with the largest share takes what is missing,
      or gives what is too much if that is less than a quarter of its share; a larger overrun
      is taken from all. */
  ghost predicate Settled(n: nat, s: seq<nat>, m: nat, freq: seq<nat>)
    requires m < |s|
  {
    var over := Sum(s) - n;
    if over < s[m] / 4 then freq == s[m := s[m] - over]
    else over >= 0 && Adjusted(s, freq, over)
  }

  /** The first loop over the symbols: every share is stored, the largest remembered. */
  method Rescale(n: nat, t: seq<nat>, freq: array<nat>) returns (remaining: int, maxFreq: nat, maxSym: nat)
    requires States(n) && Log(n) <= 30 && freq.Length == |t| > 0 && Sum(t) < 0x1_0000_0000
    modifies freq
    ensures forall i | 0 <= i < |t| :: (freq[i] > 0 <==> t[i] > 0) && freq[i] <= n
    ensures remaining == n - Sum(freq[..])
    ensures maxSym < |t| && freq[maxSym] == maxFreq
    ensures forall i | 0 <= i < |t| :: if i < maxSym then freq[i] < maxFreq else freq[i] <= maxFreq
    ensures Shares(n, t, freq[..])
  {
    hide Sum, Log, Pow2, Near, Share;
    var total := Total(t);
    var step := if total == 0 then 0 else B31 / total;
    remaining, maxFreq, maxSym := n, 0, 0;
    SumNothing();
    for i := 0 to |t|
      invariant forall a | 0 <= a < i :: (freq[a] > 0 <==> t[a] > 0) && freq[a] <= n
      invariant remaining == n - Sum(freq[..i])
      invariant maxSym < |t| && (i > 0 ==> maxSym < i && freq[maxSym] == maxFreq)
      invariant forall a | 0 <= a < i :: if a < maxSym then freq[a] < maxFreq else freq[a] <= maxFreq
      invariant i == 0 ==> maxFreq == 0 && maxSym == 0
      invariant forall a | 0 <= a < i :: freq[a] == Share(n, step, t[a])
      invariant forall a | 0 <= a < i :: Near(n, total, t[a], freq[a])
    {
      CountBelowSum(t, i);
      ShareOfCount(n, total, step, t[i]);
      ghost var before := freq[..i];
      var f := Share(n, step, t[i]);
      freq[i] := f;
      assert freq[..i + 1] == before + [f];
      SumSnoc(before, f);
      remaining := remaining - f;
      if f > maxFreq {
        maxFreq, maxSym := f, i;
      }
    }
    assert freq[..|t|] == freq[..];
    forall i, j | 0 <= i < |t| && 0 <= j < |t| && t[i] <= t[j]
      ensures freq[i] <= freq[j]
    {
      ShareMonotone(n, step, t[i], t[j]);
    }
  }

  lemma ShareOfCount(n: nat, total: nat, step: nat, count: nat)
    requires States(n) && Log(n) <= 30 && count <= total && step == if total == 0 then 0 else B31 / total
    ensures Near(n, total, count, Share(n, step, count)) && Share(n, step, count) <= n
    ensures Share(n, step, count) > 0 <==> count > 0
  {
    hide Log, Near, Share, Pow2;
    if count > 0 {
      ShareFits(n, total, count);
      ShareIsNear(n, total, count);
    } else {
      ShareOfNothing(n, step);
      NothingIsNear(n, total);
    }
  }

  lemma NothingIsNear(n: nat, total: nat)
    ensures Near(n, total, 0, 0)
  {
  }

  lemma SumSnoc(s: seq<nat>, x: nat)
    ensures Sum(s + [x]) == Sum(s) + x
  {
    assert (s + [x])[..|s|] == s;
  }

  /** fse_normalize_freq: it needs no more than that the occurring symbols are not more than
      the states. */
  method NormalizeFreq(n: nat, t: seq<nat>, freq: array<nat>) returns (ghost shares: seq<nat>, ghost lead: nat)
    requires States(n) && n < 0x1_0000 && freq.Length == |t| > 0 && Sum(t) < 0x1_0000_0000
    requires Occurring(t) <= n
    modifies freq
    ensures Sum(freq[..]) == n
    ensures forall i | 0 <= i < |t| && t[i] > 0 :: freq[i] > 0
    ensures Sum(t) > 0 ==> forall i | 0 <= i < |t| :: freq[i] > 0 <==> t[i] > 0
    ensures Shares(n, t, shares) && Leads(shares, lead) && Settled(n, shares, lead, freq[..])
  {
    hide Sum, Slack, Log, Pow2, Occurring, Shares, Adjusted;
    LogOfSmall(n);
    var remaining, maxFreq, maxSym := Rescale(n, t, freq);
    shares, lead := freq[..], maxSym;
    if Sum(t) > 0 {
      SomeoneOccurs(t, freq[..], maxSym);
    }
    if -remaining < maxFreq / 4 {
      CountBelowSum(freq[..], maxSym);
      SumUpdate(freq[..], maxSym, freq[maxSym] + remaining);
      ghost var s := freq[..][maxSym := freq[maxSym] + remaining];
      freq[maxSym] := freq[maxSym] + remaining;
      assert freq[..] == s;
    } else {
      SlackOfUsed(freq[..], t);
      AdjustFreqs(freq, -remaining);
    }
  }

  /** The demand on the caller is exact: frequencies that are positive wherever a symbol
      occurs sum to the number of occurring symbols at least. */
  lemma {:induction false} OccurringBelowSum(t: seq<nat>, freq: seq<nat>)
    requires |freq| == |t|
    requires forall i | 0 <= i < |t| && t[i] > 0 :: freq[i] > 0
    ensures Occurring(t) <= Sum(freq)
    decreases t
  {
    if t == [] {
    } else {
      OccurringBelowSum(t[..|t| - 1], freq[..|t| - 1]);
    }
  }

  lemma LogOfSmall(n: nat)
    requires 0 < n < 0x1_0000
    ensures Log(n) <= 30
  {
    LogBounds(n);
    if Log(n) > 30 {
      Pow2Values();
      Pow2Monotone(16, Log(n));
      assert false;
    }
  }

  lemma SomeoneOccurs(t: seq<nat>, freq: seq<nat>, maxSym: nat)
    requires |freq| == |t| && Sum(t) > 0 && maxSym < |t|
    requires forall i | 0 <= i < |t| :: freq[i] > 0 <==> t[i] > 0
    requires forall i | 0 <= i < |t| :: freq[i] <= freq[maxSym]
    ensures t[maxSym] > 0
  {
    if t[maxSym] == 0 {
      AllZero(t);
    }
  }

  lemma {:induction false} AllZero(t: seq<nat>)
    requires forall i | 0 <= i < |t| :: t[i] == 0
    ensures Sum(t) == 0
    decreases t
  {
    if t == [] {
    } else {
      AllZero(t[..|t| - 1]);
    }
  }
}
