/** The statistics record of the entropy coder, updated in place. */
module Stats {
  import opened Words
  import opened Normalize

  /** How often each byte value occurs. */
  function Count(data: seq<byte>): (f: seq<nat>)
    ensures |f| == SYMBOLS
  {
    if data == [] then seq(SYMBOLS, _ => 0)
    else
      var f := Count(data[..|data| - 1]);
      f[data[|data| - 1] := f[data[|data| - 1]] + 1]
  }

  lemma {:induction false} CumulateBump(freqs: seq<nat>, s: nat, n: nat)
    requires s < |freqs| && n <= |freqs|
    ensures Cumulate(freqs[s := freqs[s] + 1])[n] == Cumulate(freqs)[n] + (if s < n then 1 else 0)
    decreases |freqs|
  {
    var g := freqs[s := freqs[s] + 1];
    var m := |freqs| - 1;
    if s == m {
      assert g[..m] == freqs[..m];
    } else {
      assert g[..m] == freqs[..m][s := freqs[..m][s] + 1];
      if n <= m {
        CumulateBump(freqs[..m], s, n);
      } else {
        CumulateBump(freqs[..m], s, m);
      }
    }
  }

  lemma {:induction false} CumulateZeros(n: nat)
    ensures Cumulate(seq(n, _ => 0))[n] == 0
  {
    if n == 0 {
    } else {
      var z: seq<nat> := seq(n, _ => 0);
      assert z[..n - 1] == seq(n - 1, _ => 0);
      CumulateZeros(n - 1);
    }
  }

  /** A count is positive exactly for the bytes that occur, and the counts add up. */
  lemma {:induction false} CountIsHistogram(data: seq<byte>)
    ensures Total(Count(data)) == |data|
    ensures forall b: byte :: Count(data)[b] > 0 <==> b in data
  {
    if data == [] {
      CumulateZeros(SYMBOLS);
    } else {
      var n := |data| - 1;
      CountIsHistogram(data[..n]);
      CumulateBump(Count(data[..n]), data[n], SYMBOLS);
      assert data == data[..n] + [data[n]];
    }
  }

  /** Every count is the number of occurrences. */
  lemma {:induction false} CountIsOccurrences(data: seq<byte>, b: byte)
    ensures Count(data)[b] == multiset(data)[b]
  {
    if data == [] {
    } else {
      var n := |data| - 1;
      CountIsOccurrences(data[..n], b);
      assert data == data[..n] + [data[n]];
    }
  }

  class SStats {
    const freqs: array<nat>
    const cumFreqs: array<int>

    ghost predicate Valid() {
      freqs.Length == SYMBOLS && cumFreqs.Length == SYMBOLS + 1
    }

    constructor ()
      ensures Valid() && fresh(freqs) && fresh(cumFreqs)
    {
      freqs := new nat[SYMBOLS](_ => 0);
      cumFreqs := new int[SYMBOLS + 1](_ => 0);
    }

    method CountFreqs(data: seq<byte>)
      requires Valid()
      modifies freqs
      ensures freqs[..] == Count(data)
      ensures forall b: byte :: freqs[b] == multiset(data)[b]
    {
      for i := 0 to SYMBOLS
        invariant forall k | 0 <= k < i :: freqs[k] == 0
      {
        freqs[i] := 0;
      }
      assert freqs[..] == Count(data[..0]);
      for i := 0 to |data|
        invariant freqs[..] == Count(data[..i])
      {
        assert data[..i + 1][..i] == data[..i];
        freqs[data[i]] := freqs[data[i]] + 1;
      }
      assert data[..|data|] == data;
      forall b: byte
        ensures freqs[b] == multiset(data)[b]
      {
        CountIsOccurrences(data, b);
        assert freqs[..][b] == Count(data)[b];
      }
    }

    method CalcCumFreqs()
      requires Valid()
      modifies cumFreqs
      ensures cumFreqs[..] == Cumulate(freqs[..])
    {
      cumFreqs[0] := 0;
      for i := 0 to SYMBOLS
        invariant cumFreqs[..i + 1] == Cumulate(freqs[..i])
      {
        assert freqs[..i + 1][..i] == freqs[..i];
        cumFreqs[i + 1] := cumFreqs[i] + freqs[i];
        assert cumFreqs[..i + 2] == cumFreqs[..i + 1] + [cumFreqs[i + 1]];
      }
      assert freqs[..SYMBOLS] == freqs[..];
      assert cumFreqs[..SYMBOLS + 1] == cumFreqs[..];
    }

    /** The donor search of the normaliser. */
    method FindDonor() returns (bestSteal: int)
      requires Valid()
      ensures bestSteal == Donor(cumFreqs[..], SYMBOLS)
    {
      ghost var c := cumFreqs[..];
      var bestFreq := NO_FREQ;
      bestSteal := NO_DONOR;
      for j := 0 to SYMBOLS
        invariant bestSteal == Donor(c, j) && bestFreq == BestFreq(c, bestSteal)
      {
        var freq := cumFreqs[j + 1] - cumFreqs[j];
        if freq > 1 && freq < bestFreq {
          bestFreq := freq;
          bestSteal := j;
        }
      }
    }

    /** The stealing of the normaliser: shift what lies between the two symbols. */
    method StealSlot(i: nat, bestSteal: nat)
      requires Valid() && i < SYMBOLS && bestSteal < SYMBOLS && i != bestSteal
      modifies cumFreqs
      ensures cumFreqs[..] == Steal(old(cumFreqs[..]), i, bestSteal)
    {
      if bestSteal < i {
        for j := bestSteal + 1 to i + 1
          invariant forall k | 0 <= k <= SYMBOLS ::
            cumFreqs[k] == old(cumFreqs[k]) - (if bestSteal < k < j then 1 else 0)
        {
          cumFreqs[j] := cumFreqs[j] - 1;
        }
      } else {
        for j := i + 1 to bestSteal + 1
          invariant forall k | 0 <= k <= SYMBOLS ::
            cumFreqs[k] == old(cumFreqs[k]) + (if i < k < j then 1 else 0)
        {
          cumFreqs[j] := cumFreqs[j] + 1;
        }
      }
    }

    /** The first loop of the normaliser: every sum is scaled to the target. */
    method ScaleCums(target: nat)
      requires Valid() && cumFreqs[0] == 0 && cumFreqs[SYMBOLS] > 0
      modifies cumFreqs
      ensures cumFreqs[..] == Resample(old(cumFreqs[..]), target)
    {
      ghost var c := cumFreqs[..];
      var curTotal := cumFreqs[SYMBOLS];
      ScaledEnds(target, curTotal);
      for i := 1 to SYMBOLS + 1
        invariant forall k | 0 <= k < i :: cumFreqs[k] == target * c[k] / curTotal
        invariant forall k | i <= k <= SYMBOLS :: cumFreqs[k] == c[k]
      {
        cumFreqs[i] := target * cumFreqs[i] / curTotal;
      }
      assert cumFreqs[..] == Resample(c, target);
    }

    /** The second loop: every used symbol that lost its last slot is given one. */
    method FeedStarved(target: nat)
      requires Valid() && SYMBOLS <= target < NO_FREQ && Fair(cumFreqs[..], freqs[..], target, 0)
      modifies cumFreqs
      ensures cumFreqs[..] == FeedAll(old(cumFreqs[..]), freqs[..], SYMBOLS)
    {
      hide Fair, Donor, Steal;
      ghost var r, f := cumFreqs[..], freqs[..];
      for i := 0 to SYMBOLS
        invariant cumFreqs[..] == FeedAll(r, f, i)
      {
        FeedAllIsFair(r, f, target, i);
        if freqs[i] > 0 && cumFreqs[i + 1] == cumFreqs[i] {
          assert Starved(cumFreqs[..], f, i);
          var bestSteal := FindDonor();
          DonorExists(cumFreqs[..], f, target, i);
          StealSlot(i, bestSteal);
        }
      }
    }

    /** The last loop: the frequencies are the differences of the sums. */
    method SetWidths()
      requires Valid() && forall k | 0 <= k < SYMBOLS :: 0 <= Width(cumFreqs[..], k)
      modifies freqs
      ensures freqs[..] == Widths(cumFreqs[..])
    {
      ghost var n := cumFreqs[..];
      for i := 0 to SYMBOLS
        invariant forall k | 0 <= k < i :: freqs[k] == Width(n, k)
      {
        assert 0 <= Width(n, i);
        freqs[i] := cumFreqs[i + 1] - cumFreqs[i];
      }
    }

    /** normalize_freqs: rescale, repair the symbols that lost their last slot, and
        recompute the frequencies. The repairs never run out of donors. */
    method NormalizeFreqs(target: nat)
      requires Valid() && Histogram(freqs[..], target)
      modifies freqs, cumFreqs
      ensures cumFreqs[..] == NormalCum(old(freqs[..]), target)
      ensures SlotTable(cumFreqs[..], old(freqs[..]), target)
      ensures Proportional(old(freqs[..]), target, cumFreqs[..])
      ensures freqs[..] == Widths(cumFreqs[..])
    {
      hide Resample, FeedAll, Fair, Width, Proportional;
      ghost var f := freqs[..];
      CalcCumFreqs();
      ghost var c := cumFreqs[..];
      assert cumFreqs[SYMBOLS] == c[SYMBOLS] == Total(f) && cumFreqs[0] == c[0];
      ScaleCums(target);
      ResampleIsFair(f, target);
      FeedStarved(target);
      NormaliseIsSlotTable(f, target);
      NormaliseIsProportional(f, target);
      SetWidths();
    }
  }
}
