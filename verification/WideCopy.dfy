/** The decoder's copies by four words at a time, against the word-by-word copy. They may
    run up to four words past their end; everything behind that is untouched. */
module WideCopy {
  import opened Words
  import opened Tokens

  /** The word-by-word copy is the only sequence that continues `o` and repeats itself
      `dist` places on. */
  lemma {:induction false} CopyIsUnique<T>(o: seq<T>, dist: nat, len: nat, r: seq<T>)
    requires 1 <= dist <= |o| && |r| == |o| + len && r[..|o|] == o
    requires forall k | |o| <= k < |r| :: r[k] == r[k - dist]
    ensures r == CopyMatch(o, dist, len)
    decreases len
  {
    if len == 0 {
    } else {
      var n := |r| - 1;
      CopyIsUnique(o, dist, len - 1, r[..n]);
      assert r == r[..n] + [r[n - dist]];
    }
  }

  /** The word a wide load finds at `i`; behind the section it is of no consequence. */
  function Load(src: seq<word>, i: nat): word {
    if i < |src| then src[i] else 0
  }

  /** One eight-byte store. */
  method StoreFour(out: array<word>, q: nat, x0: word, x1: word, x2: word, x3: word)
    requires q + 4 <= out.Length
    modifies out
    ensures out[q] == x0 && out[q + 1] == x1 && out[q + 2] == x2 && out[q + 3] == x3
    ensures forall k | 0 <= k < out.Length && !(q <= k < q + 4) :: out[k] == old(out[k])
  {
    out[q], out[q + 1], out[q + 2], out[q + 3] := x0, x1, x2, x3;
  }

  /** mylz16_Copy64 from the literal section. */
  method CopyLiterals(out: array<word>, po: nat, src: seq<word>, ps: nat, len: nat)
    requires ps + len <= |src| && po + len + 3 <= out.Length
    modifies out
    ensures out[..po + len] == old(out[..po]) + src[ps..ps + len]
    ensures forall k | po + len + 3 <= k < out.Length :: out[k] == old(out[k])
  {
    for g := 0 to (len + 3) / 4
      invariant forall k | 0 <= k < po :: out[k] == old(out[k])
      invariant forall k | po <= k < po + 4 * g :: out[k] == Load(src, k - po + ps)
      invariant forall k | po + len + 3 <= k < out.Length :: out[k] == old(out[k])
    {
      var i := ps + 4 * g;
      StoreFour(out, po + 4 * g, Load(src, i), Load(src, i + 1), Load(src, i + 2), Load(src, i + 3));
    }
    assert out[..po + len] == out[..po] + out[po..po + len];
    assert out[po..po + len] == src[ps..ps + len];
  }

  /** mylz16_Copy64 within the output: with a distance of at least four words each load
      lies wholly before its store. */
  method CopyFar(out: array<word>, po: nat, dist: nat, len: nat)
    requires 4 <= dist <= po && po + len + 3 <= out.Length
    modifies out
    ensures out[..po + len] == CopyMatch(old(out[..po]), dist, len)
    ensures forall k | po + len + 3 <= k < out.Length :: out[k] == old(out[k])
  {
    for g := 0 to (len + 3) / 4
      invariant forall k | 0 <= k < po :: out[k] == old(out[k])
      invariant forall k | po <= k < po + 4 * g :: out[k] == out[k - dist]
      invariant forall k | po + len + 3 <= k < out.Length :: out[k] == old(out[k])
    {
      var t, s := po + 4 * g, po - dist + 4 * g;
      StoreFour(out, t, out[s], out[s + 1], out[s + 2], out[s + 3]);
    }
    CopyIsUnique(old(out[..po]), dist, len, out[..po + len]);
  }

  /** One period of the short-period path. */
  method StorePeriod(out: array<word>, po: nat, q: nat, dist: nat, x0: word, x1: word, x2: word, x3: word)
    requires 1 <= dist <= 3 && dist <= po <= q && q + 4 <= out.Length
    requires forall k | po <= k < q :: out[k] == out[k - dist]
    requires out[q - dist] == x0 && (dist > 1 ==> out[q - dist + 1] == x1) && (dist > 2 ==> out[q - dist + 2] == x2)
    modifies out
    ensures forall k | po <= k < q + dist :: out[k] == out[k - dist]
    ensures out[q] == x0 && (dist > 1 ==> out[q + 1] == x1) && (dist > 2 ==> out[q + 2] == x2)
    ensures forall k | 0 <= k < out.Length && !(q <= k < q + 4) :: out[k] == old(out[k])
  {
    StoreFour(out, q, x0, x1, x2, x3);
    assert dist > 1 ==> out[q + 1] == out[q + 1 - dist];
    assert dist > 2 ==> out[q + 2] == out[q + 2 - dist];
  }

  /** The short-period path: the same four words stored again and again, one period apart. */
  method CopyNear(out: array<word>, po: nat, dist: nat, len: nat)
    requires 1 <= dist <= 3 && dist <= po && po + len + 4 <= out.Length
    modifies out
    ensures out[..po + len] == CopyMatch(old(out[..po]), dist, len)
    ensures forall k | po + len + 4 <= k < out.Length :: out[k] == old(out[k])
  {
    var pm := po - dist;
    var x0, x1, x2, x3 := out[pm], out[pm + 1], out[pm + 2], out[pm + 3];
    var n := 1 + len / dist;
    var q := po;
    for i := 0 to n
      invariant q == po + i * dist
      invariant forall k | 0 <= k < po :: out[k] == old(out[k])
      invariant forall k | po <= k < q <= out.Length :: out[k] == out[k - dist]
      invariant q <= po + len + dist
      invariant out[q - dist] == x0 && (dist > 1 ==> out[q - dist + 1] == x1) && (dist > 2 ==> out[q - dist + 2] == x2)
      invariant forall k | po + len + 4 <= k < out.Length :: out[k] == old(out[k])
    {
      PeriodStart(i, n, dist, len);
      StorePeriod(out, po, q, dist, x0, x1, x2, x3);
      q := q + dist;
    }
    Periods(len, dist);
    CopyIsUnique(old(out[..po]), dist, len, out[..po + len]);
  }

  lemma Periods(len: nat, dist: nat)
    requires 1 <= dist <= 3
    ensures (1 + len / dist) * dist > len
    ensures len / dist * dist <= len
  {
    assert len == len / dist * dist + len % dist;
  }

  lemma PeriodStart(i: nat, n: nat, dist: nat, len: nat)
    requires 1 <= dist <= 3 && n == 1 + len / dist && i < n
    ensures i * dist <= len
    ensures (i + 1) * dist == i * dist + dist
  {
    Periods(len, dist);
    assert i <= len / dist;
    assert i * dist <= len / dist * dist;
  }
}
