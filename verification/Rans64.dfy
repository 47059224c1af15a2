/** The 64-bit rANS state machine: its encoder step, its decoder step, and the
    division-free form of the encoder step. */
module Rans64 {
  import opened Arith
  import opened Words

  const B32 := 0x1_0000_0000
  const B64 := 0x1_0000_0000_0000_0000

  /** Lower bound of the normalisation interval. */
  const L := 0x8000_0000

  /** One past the upper bound of the normalisation interval. */
  const TOP := 0x8000_0000_0000_0000

  type State = x: nat | L <= x < TOP witness L

  /** A non-empty slot range inside `[0, 2^bits)`. */
  ghost predicate Slot(start: nat, freq: nat, bits: nat) {
    bits <= 31 && freq > 0 && start + freq <= Pow2(bits)
  }

  // ---------------------------------------------------------------- one step

  /** First state that has to be renormalised before a symbol of this frequency. */
  function XMax(freq: nat, bits: nat): int
    requires bits <= 31
  {
    (L / Pow2(bits)) * B32 * freq
  }

  /** Renormalisation: what stays in the state, and the words pushed. */
  function Renorm(x: nat, freq: nat, bits: nat): (r: (nat, seq<dword>))
    requires bits <= 31
  {
    if x >= XMax(freq, bits) then (x / B32, [x % B32]) else (x, [])
  }

  /** The coding function C(s, x), with a real division. */
  function Put(x: nat, start: nat, freq: nat, bits: nat): nat
    requires freq > 0
  {
    (x / freq) * Pow2(bits) + x % freq + start
  }

  /** Rans64EncPut: renormalise, then code. */
  function EncStep(x: nat, start: nat, freq: nat, bits: nat): (nat, seq<dword>)
    requires freq > 0 && bits <= 31
  {
    var (y, out) := Renorm(x, freq, bits);
    (Put(y, start, freq, bits), out)
  }

  /** The decoding function D(x) once the slot is known. */
  function Get(x: nat, start: nat, freq: nat, bits: nat): int {
    freq * (x / Pow2(bits)) + x % Pow2(bits) - start
  }

  /** The three powers a step works with, for `bits <= 31`. */
  lemma Scale(bits: nat)
    requires bits <= 31
    ensures Pow2(31 - bits) * Pow2(bits) == L
    ensures Pow2(63 - bits) * Pow2(bits) == TOP
    ensures Pow2(63 - bits) == Pow2(31 - bits) * B32
    ensures Pow2(63 - bits) >= B32
    ensures L / Pow2(bits) == Pow2(31 - bits)
  {
    Pow2Values();
    Pow2Add(31 - bits, bits);
    Pow2Add(63 - bits, bits);
    Pow2Add(31 - bits, 32);
    Pow2Monotone(32, 63 - bits);
    DivModUnique(L, Pow2(bits), Pow2(31 - bits), 0);
  }

  /** The threshold is `freq * 2^(63 - bits)`. */
  lemma XMaxIsPower(freq: nat, bits: nat)
    requires bits <= 31
    ensures XMax(freq, bits) == freq * Pow2(63 - bits)
  {
    Scale(bits);
  }

  /** Renormalising emits at most one word and leaves a state in
      `[freq * 2^(31 - bits), freq * 2^(63 - bits))`. */
  lemma RenormRange(x: State, freq: nat, bits: nat)
    requires bits <= 31 && 0 < freq <= Pow2(bits)
    ensures var (y, out) := Renorm(x, freq, bits);
            && |out| <= 1
            && freq * Pow2(31 - bits) <= y < freq * Pow2(63 - bits)
            && (out == [] ==> y == x)
            && (out != [] ==> y < L && x == y * B32 + out[0])
  {
    Scale(bits);
    XMaxIsPower(freq, bits);
    RenormRangeOf(x, freq, Pow2(bits), Pow2(31 - bits), Pow2(63 - bits));
  }

  lemma RenormRangeOf(x: State, freq: nat, m: nat, lo: nat, hi: nat)
    requires lo * m == L && hi == lo * B32 && hi >= B32
    requires 0 < freq <= m
    ensures x >= freq * hi ==> freq * lo <= x / B32 < freq * hi && x / B32 < L
    ensures x < freq * hi ==> freq * lo <= x
  {
    if x >= freq * hi {
      assert freq * lo * B32 == freq * hi;
      DivBetween(x, B32, freq * lo, L);
      MulMonotone(1, freq, hi);
    } else {
      MulMonotone(freq, m, lo);
    }
  }

  /** Coding a renormalised state stays inside the normalisation interval. */
  lemma PutRange(y: nat, start: nat, freq: nat, bits: nat)
    requires Slot(start, freq, bits)
    requires freq * Pow2(31 - bits) <= y < freq * Pow2(63 - bits)
    ensures L <= Put(y, start, freq, bits) < TOP
  {
    Scale(bits);
    PutRangeOf(y, start, freq, Pow2(bits), Pow2(31 - bits), Pow2(63 - bits));
  }

  lemma PutRangeOf(y: nat, start: nat, freq: nat, m: nat, lo: nat, hi: nat)
    requires lo * m == L && hi * m == TOP
    requires 0 < freq && start + freq <= m
    requires freq * lo <= y < freq * hi
    ensures L <= (y / freq) * m + y % freq + start < TOP
  {
    Commute(freq, lo);
    Commute(freq, hi);
    DivBetween(y, freq, lo, hi);
    PutBetween(y / freq, y % freq + start, m, lo, hi);
  }

  lemma Commute(a: nat, b: nat)
    ensures a * b == b * a
  {
  }

  lemma PutBetween(q: nat, r: nat, m: nat, lo: nat, hi: nat)
    requires lo * m == L && hi * m == TOP && lo <= q < hi && r < m
    ensures L <= q * m + r < TOP
  {
    MulMonotone(lo, q, m);
    MulMonotone(q + 1, hi, m);
    assert (q + 1) * m == q * m + m;
  }

  /** The state invariant: a step started in the normalisation interval ends in it
      and pushes at most one word. */
  lemma EncStepInvariant(x: State, start: nat, freq: nat, bits: nat)
    requires Slot(start, freq, bits)
    ensures L <= EncStep(x, start, freq, bits).0 < TOP
    ensures |EncStep(x, start, freq, bits).1| <= 1
  {
    RenormRange(x, freq, bits);
    PutRange(Renorm(x, freq, bits).0, start, freq, bits);
  }

  /** Coding is undone by decoding, and the low bits name the slot. */
  lemma PutThenGet(y: nat, start: nat, freq: nat, bits: nat)
    requires Slot(start, freq, bits)
    ensures start <= Put(y, start, freq, bits) % Pow2(bits) < start + freq
    ensures Get(Put(y, start, freq, bits), start, freq, bits) == y
  {
    hide Pow2;
    PutThenGetOf(y / freq, y % freq, y, start, freq, Pow2(bits));
  }

  lemma PutThenGetOf(q: nat, r: nat, y: nat, start: nat, freq: nat, m: nat)
    requires r < freq && start + freq <= m && y == q * freq + r
    ensures var z := q * m + r + start;
            start <= z % m < start + freq && freq * (z / m) + z % m - start == y
  {
    DivModUnique(q * m + r + start, m, q, r + start);
  }

  // ------------------------------------------------------------ the refill

  datatype Refilled = Refilled(x: nat, rest: seq<dword>) | OutOfWords

  /** The decoder's renormalisation loop: shift words in until the state is back in
      its interval. */
  function Refill(x: nat, words: seq<dword>): Refilled
    decreases |words|
  {
    if x >= L then Refilled(x, words)
    else if words == [] then OutOfWords
    else Refill(x * B32 + words[0], words[1..])
  }

  /** The decoder takes a word back exactly when the encoder pushed one, so its loop
      body runs at most once and the words after it are untouched. */
  lemma RefillUndoesRenorm(x: State, freq: nat, bits: nat, words: seq<dword>)
    requires bits <= 31 && 0 < freq <= Pow2(bits)
    ensures var (y, out) := Renorm(x, freq, bits);
            && y < TOP
            && (y < L <==> out != [])
            && Refill(y, out + words) == Refilled(x, words)
  {
    RenormRange(x, freq, bits);
    XMaxIsPower(freq, bits);
    var (y, out) := Renorm(x, freq, bits);
    MulMonotone(freq, Pow2(bits), Pow2(63 - bits));
    if out != [] {
      assert (out + words)[1..] == words;
      assert Refill(x, words) == Refilled(x, words);
    } else {
      assert out + words == words;
    }
  }

  /** One encoder step followed by the decoder step of the same symbol is the
      identity on state and words. */
  lemma StepRoundTrip(x: State, start: nat, freq: nat, bits: nat, words: seq<dword>)
    requires Slot(start, freq, bits)
    ensures var (z, out) := EncStep(x, start, freq, bits);
            && L <= z < TOP
            && start <= z % Pow2(bits) < start + freq
            && 0 <= Get(z, start, freq, bits) < TOP
            && Refill(Get(z, start, freq, bits), out + words) == Refilled(x, words)
  {
    EncStepInvariant(x, start, freq, bits);
    PutThenGet(Renorm(x, freq, bits).0, start, freq, bits);
    RefillUndoesRenorm(x, freq, bits, words);
  }

  // --------------------------------------------- the division-free encoder

  /** Encoder symbol description. */
  datatype EncSymbol = EncSymbol(rcpFreq: qword, freq: dword, bias: dword, cmplFreq: dword, rcpShift: nat)

  /** Top 64 bits of a 64 by 64 bit product. */
  function MulHi(a: qword, b: qword): (r: nat)
    ensures r < B64
  {
    assert 0 <= a * b < B64 * B64 by { ProductBound(a, b); }
    DivBetween(a * b, B64, 0, B64);
    a * b / B64
  }

  lemma ProductBound(a: qword, b: qword)
    ensures 0 <= a * b < B64 * B64
  {
    MulBelow(a, B64, b, B64);
  }

  /** The multiply-high form of the coding function, in wrapping 64-bit arithmetic. */
  function FastPut(x: qword, sym: EncSymbol): nat {
    var q := MulHi(x, sym.rcpFreq) / Pow2(sym.rcpShift);
    (x + sym.bias + q * sym.cmplFreq) % B64
  }

  /** The exact reciprocal `ceil(2^(shift + 63) / freq)` divides every 63-bit number. */
  lemma ReciprocalDivides(x: nat, freq: nat, shift: nat, rcp: nat)
    requires 2 <= freq <= Pow2(shift) && 1 <= shift
    requires x < TOP
    requires Pow2(shift + 63) <= rcp * freq < Pow2(shift + 63) + freq
    ensures x * rcp / B64 / Pow2(shift - 1) == x / freq
  {
    hide Pow2;
    Pow2Values();
    Pow2Add(64, shift - 1);
    Pow2Add(63, shift);
    DivDiv(x * rcp, B64, Pow2(shift - 1));
    ReciprocalDividesOf(x, freq, Pow2(shift), rcp);
  }

  /** The rounding error `x * e` of a reciprocal with `rcp * freq == n + e` stays below
      the denominator `n`. */
  lemma ReciprocalDividesOf(x: nat, freq: nat, m: nat, rcp: nat)
    requires 0 < freq <= m && x < TOP
    requires TOP * m <= rcp * freq < TOP * m + freq
    ensures x * rcp / (TOP * m) == x / freq
  {
    var n, e := TOP * m, rcp * freq - TOP * m;
    var q, r := x / freq, x % freq;
    MulBelow(x, TOP, e, m);
    ReciprocalExpansion(x, freq, rcp, n, e, q, r);
    assert r * n + x * e < n * freq by {
      MulMonotone(r + 1, freq, n);
      assert (r + 1) * n == r * n + n;
      assert freq * n == n * freq;
    }
    assert 0 <= r * n;
    ScaledQuotient(x * rcp, freq, n, q, r * n + x * e);
  }

  lemma ReciprocalExpansion(x: int, freq: int, rcp: int, n: int, e: int, q: int, r: int)
    requires rcp * freq == n + e && x == q * freq + r
    ensures (x * rcp) * freq == (q * n) * freq + (r * n + x * e)
  {
    assert (x * rcp) * freq == x * (n + e);
    assert x * (n + e) == x * n + x * e;
    assert x * n == (q * freq) * n + r * n;
  }

  /** What an initialised symbol must do: on every non-zero 63-bit state the
      multiply-high form agrees with the dividing form, modulo the 64-bit wrap. */
  ghost predicate Faithful(sym: EncSymbol, start: nat, freq: nat, bits: nat) {
    && sym.freq == freq
    && (freq > 0 ==> forall x: qword {:trigger FastPut(x, sym)} | 1 <= x < TOP ::
          FastPut(x, sym) == Put(x, start, freq, bits) % B64)
  }

  /** `freq == 1`: the quotient estimate is `x - 1` and the bias makes up for it. */
  lemma UnitFrequency(x: qword, start: nat, m: nat, sym: EncSymbol)
    requires 1 <= x && 1 <= m <= L && start <= m
    requires sym == EncSymbol(B64 - 1, 1, start + m - 1, m - 1, 0)
    ensures FastPut(x, sym) == (x * m + start) % B64
  {
    assert x * (B64 - 1) == (x - 1) * B64 + (B64 - x);
    DivModUnique(x * (B64 - 1), B64, x - 1, B64 - x);
    assert (x - 1) * (m - 1) == x * m - x - m + 1;
  }

  /** `freq >= 2`: with the exact quotient, `x + start + q * (m - freq)` is the code. */
  lemma ComplementFrequency(x: nat, start: nat, freq: nat, m: nat)
    requires 0 < freq <= m
    ensures x + start + (x / freq) * (m - freq) == (x / freq) * m + x % freq + start
  {
    assert (x / freq) * (m - freq) == (x / freq) * m - (x / freq) * freq;
  }

  /** The long division by 64:64 bit pieces yields the exact reciprocal. */
  lemma SplitDivision(freq: nat, x1: nat, t0: nat, t1: nat)
    requires freq > 0
    requires t1 == x1 / freq
    requires t0 == (freq - 1 + (x1 % freq) * B32) / freq
    ensures x1 * B32 <= (t0 + t1 * B32) * freq < x1 * B32 + freq
  {
    var r1, r0 := x1 % freq, (freq - 1 + (x1 % freq) * B32) % freq;
    assert t1 * freq + r1 == x1;
    assert t0 * freq + r0 == freq - 1 + r1 * B32;
    assert (t0 + t1 * B32) * freq == t0 * freq + (t1 * freq) * B32;
    assert (t1 * freq) * B32 == x1 * B32 - r1 * B32;
  }

  /** The reciprocal fits 64 bits because `freq` exceeds half of `2^shift`. */
  lemma ReciprocalFits(freq: nat, half: nat, rcp: nat)
    requires half < freq < B64 && rcp * freq < half * B64 + freq
    ensures rcp < B64
  {
    MulMonotone(half + 1, freq, B64);
    assert B64 * freq == freq * B64;
    CancelLess(rcp, B64, freq);
  }

  /** Numerator of the low division, and the reciprocal assembled from both. */
  function LowNumerator(freq: nat, x1: nat): nat
    requires freq > 0
  {
    freq - 1 + (x1 % freq) * B32
  }

  function SplitReciprocal(freq: nat, x1: nat): nat
    requires freq > 0
  {
    LowNumerator(freq, x1) / freq + (x1 / freq) * B32
  }

  lemma LowNumeratorFits(freq: nat, x1: nat)
    requires 0 < freq <= L
    ensures LowNumerator(freq, x1) < B64
  {
    MulMonotone(x1 % freq, L - 1, B32);
  }

  lemma SplitReciprocalBounds(freq: nat, x1: nat)
    requires freq > 0
    ensures x1 * B32 <= SplitReciprocal(freq, x1) * freq < x1 * B32 + freq
  {
    SplitDivision(freq, x1, LowNumerator(freq, x1) / freq, x1 / freq);
  }

  lemma BelowTop()
    ensures Pow2(62) < TOP
  {
    Pow2Values();
    assert Pow2(63) == 2 * Pow2(62);
  }

  lemma ReciprocalPowers(shift: nat)
    requires 1 <= shift <= 31
    ensures Pow2(shift + 31) < TOP
    ensures Pow2(shift + 31) * B32 == Pow2(shift + 63) == Pow2(shift - 1) * B64
  {
    hide Pow2;
    Pow2Values();
    BelowTop();
    Pow2Monotone(shift + 31, 62);
    Pow2Add(shift + 31, 32);
    Pow2Add(shift - 1, 64);
  }

  /** The reciprocal computed by the two divisions fits its field and is exact. */
  lemma SplitReciprocalIsExact(freq: nat, shift: nat)
    requires 2 <= freq <= L && 1 <= shift <= 31
    requires Pow2(shift - 1) < freq <= Pow2(shift)
    ensures Pow2(shift + 31) < TOP
    ensures Pow2(shift + 63) <= SplitReciprocal(freq, Pow2(shift + 31)) * freq < Pow2(shift + 63) + freq
    ensures SplitReciprocal(freq, Pow2(shift + 31)) < B64
  {
    ReciprocalPowers(shift);
    SplitReciprocalBounds(freq, Pow2(shift + 31));
    ReciprocalFits(freq, Pow2(shift - 1), SplitReciprocal(freq, Pow2(shift + 31)));
  }

  lemma ReciprocalIsFaithful(start: nat, freq: nat, bits: nat, shift: nat, sym: EncSymbol)
    requires bits <= 31 && start + freq <= Pow2(bits) && 2 <= freq <= Pow2(shift) && shift >= 1
    requires Pow2(shift + 63) <= sym.rcpFreq * freq < Pow2(shift + 63) + freq
    requires sym.freq == freq && sym.bias == start && sym.cmplFreq == Pow2(bits) - freq
    requires sym.rcpShift == shift - 1
    ensures Faithful(sym, start, freq, bits)
  {
    forall x: qword | 1 <= x < TOP
      ensures FastPut(x, sym) == Put(x, start, freq, bits) % B64
    {
      FastPutIsPut(x, start, freq, bits, shift, sym);
    }
  }

  lemma FastPutIsPut(x: qword, start: nat, freq: nat, bits: nat, shift: nat, sym: EncSymbol)
    requires start + freq <= Pow2(bits) && 2 <= freq <= Pow2(shift) && shift >= 1
    requires Pow2(shift + 63) <= sym.rcpFreq * freq < Pow2(shift + 63) + freq
    requires sym.bias == start && sym.cmplFreq == Pow2(bits) - freq && sym.rcpShift == shift - 1
    requires x < TOP
    ensures FastPut(x, sym) == Put(x, start, freq, bits) % B64
  {
    hide Pow2;
    ReciprocalDivides(x, freq, shift, sym.rcpFreq);
    ComplementFrequency(x, start, freq, Pow2(bits));
  }

  lemma UnitIsFaithful(start: nat, freq: nat, bits: nat, sym: EncSymbol)
    requires bits <= 31 && start + freq <= Pow2(bits) <= L && freq < 2
    requires sym == EncSymbol(B64 - 1, freq, start + Pow2(bits) - 1, Pow2(bits) - freq, 0)
    ensures Faithful(sym, start, freq, bits)
  {
    forall x: qword | freq > 0 && 1 <= x < TOP
      ensures FastPut(x, sym) == Put(x, start, freq, bits) % B64
    {
      UnitFrequency(x, start, Pow2(bits), sym);
    }
  }

  /** The shift loop: `freq` lies between two powers of two. */
  method CeilLog(freq: nat, bits: nat) returns (shift: nat)
    requires 2 <= freq <= Pow2(bits)
    ensures 0 < shift <= bits && Pow2(shift - 1) < freq <= Pow2(shift)
  {
    shift := 0;
    while freq > Pow2(shift)
      invariant shift <= bits
      invariant shift > 0 ==> Pow2(shift - 1) < freq
      decreases bits - shift
    {
      shift := shift + 1;
    }
    assert shift > 0 by { assert Pow2(0) == 1; }
  }

  /** Rans64EncSymbolInit. */
  method EncSymbolInit(start: nat, freq: nat, bits: nat) returns (sym: EncSymbol)
    requires bits <= 31 && start + freq <= Pow2(bits)
    ensures Faithful(sym, start, freq, bits)
  {
    hide Pow2, Faithful;
    Pow2Values();
    Pow2Monotone(bits, 31);
    var cmplFreq: dword := Pow2(bits) - freq;
    if freq < 2 {
      sym := EncSymbol(B64 - 1, freq, start + Pow2(bits) - 1, cmplFreq, 0);
      UnitIsFaithful(start, freq, bits, sym);
    } else {
      var shift := CeilLog(freq, bits);
      var rcp := Reciprocal(freq, shift);
      sym := EncSymbol(rcp, freq, start, cmplFreq, shift - 1);
      ReciprocalIsFaithful(start, freq, bits, shift, sym);
    }
  }

  /** ceil(2^(shift + 63) / freq), by two 64:64 bit divisions. */
  method Reciprocal(freq: nat, shift: nat) returns (rcp: qword)
    requires 2 <= freq <= L && 1 <= shift <= 31
    requires Pow2(shift - 1) < freq <= Pow2(shift)
    ensures Pow2(shift + 63) <= rcp * freq < Pow2(shift + 63) + freq
  {
    hide Pow2;
    SplitReciprocalIsExact(freq, shift);
    LowNumeratorFits(freq, Pow2(shift + 31));
    var x0: qword := freq - 1;
    var x1: qword := Pow2(shift + 31);
    var t1 := x1 / freq;
    x0 := x0 + (x1 % freq) * B32;
    var t0 := x0 / freq;
    rcp := t0 + t1 * B32;
  }
}
