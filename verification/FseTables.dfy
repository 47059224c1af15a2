/** The tANS tables of LZFSE: how the encoder maps states into a symbol's slots, how the
    decoder maps them back, and why the two maps are inverse. */
module FseTables {
  import opened Arith
  import opened Words

  // ---------------------------------------------------------------- logarithms

  /** Position of the highest bit, which the program takes from a count of leading zeros. */
  function Log(x: nat): nat
    requires x > 0
  {
    if x == 1 then 0 else 1 + Log(x / 2)
  }

  lemma {:induction false} LogBounds(x: nat)
    requires x > 0
    ensures Pow2(Log(x)) <= x < 2 * Pow2(Log(x))
  {
    if x == 1 {
      assert Pow2(0) == 1;
    } else {
      LogBounds(x / 2);
    }
  }

  /** The number of states is a power of two. */
  ghost predicate States(n: nat) {
    n > 0 && n == Pow2(Log(n))
  }

  lemma LogMonotone(f: nat, n: nat)
    requires 0 < f <= n
    ensures Log(f) <= Log(n)
  {
    LogBounds(f);
    LogBounds(n);
    if Log(n) < Log(f) {
      Pow2Monotone(Log(n) + 1, Log(f));
      assert false;
    }
  }

  /** Difference of two counts of leading zeros. */
  function Shift(n: nat, f: nat): nat
    requires 0 < f <= n
  {
    LogMonotone(f, n);
    Log(n) - Log(f)
  }

  /** The shift brings the frequency between the number of states and twice that number;
      `q` is the power of two at or below the frequency. */
  lemma ShiftBounds(n: nat, f: nat) returns (q: nat)
    requires States(n) && 0 < f <= n
    ensures n == q * Pow2(Shift(n, f)) && q <= f < 2 * q
    ensures n <= f * Pow2(Shift(n, f)) < 2 * n
    ensures Shift(n, f) == 0 ==> f == n
  {
    hide Log, Pow2;
    q := Pow2(Log(f));
    LogBounds(f);
    LogMonotone(f, n);
    Pow2Add(Log(f), Shift(n, f));
    MulMonotone(q, f, Pow2(Shift(n, f)));
    MulMonotone(f + 1, 2 * q, Pow2(Shift(n, f)));
    assert (f + 1) * Pow2(Shift(n, f)) == f * Pow2(Shift(n, f)) + Pow2(Shift(n, f));
    assert 2 * q * Pow2(Shift(n, f)) == 2 * n;
    assert Shift(n, f) == 0 ==> q == n;
  }

  // -------------------------------------------------------------------- entries

  datatype EncEntry = EncEntry(s0: int, k: nat, delta0: int, delta1: int)
  datatype DecEntry = DecEntry(k: nat, symbol: byte, delta: int)

  /** Encoder entry of a symbol whose slots start at `offset`. The last field is not fixed
      when the symbol takes all states: the program then shifts by minus one. */
  predicate IsEncEntry(e: EncEntry, n: nat, f: nat, offset: nat)
    requires 0 < f <= n
  {
    var k := Shift(n, f);
    && e.k == k
    && e.s0 == f * Pow2(k) - n
    && e.delta0 == offset - f + n / Pow2(k)
    && (k > 0 ==> e.delta1 == offset - f + n / Pow2(k - 1))
  }

  /** Decoder entry of slot `j` of a symbol; without a shift there are no slots behind `j0`. */
  function DecEntryOf(n: nat, f: nat, j: nat, symbol: byte): DecEntry
    requires 0 < f <= n
  {
    var k := Shift(n, f);
    var j0 := 2 * n / Pow2(k) - f;
    if j < j0 || k == 0 then DecEntry(k, symbol, (f + j) * Pow2(k) - n)
    else DecEntry(k - 1, symbol, (j - j0) * Pow2(k - 1))
  }

  // ---------------------------------------------------------------------- steps

  /** What one encoding step writes, and the state it moves to. */
  datatype Coded = Coded(nbits: nat, bits: nat, state: int)

  function Encode(e: EncEntry, s: nat): Coded
    requires s >= e.s0 || e.k > 0
  {
    var nbits := if s >= e.s0 then e.k else e.k - 1;
    var delta := if s >= e.s0 then e.delta0 else e.delta1;
    Coded(nbits, s % Pow2(nbits), delta + s / Pow2(nbits))
  }

  /** States from `s0` on: the full shift. `p` is the power of two of the shift. */
  lemma HighState(n: nat, f: nat, q: nat, p: nat, s: nat)
    requires p > 0 && n == q * p && q <= f < 2 * q
    requires f * p - n <= s < n
    ensures n / p == q && 2 * n / p == 2 * q
    ensures 0 <= q - f + s / p < 2 * q - f
    ensures (f + (q - f + s / p)) * p - n + s % p == s
  {
    DivModUnique(n, p, q, 0);
    DivModUnique(2 * n, p, 2 * q, 0);
    assert f * p - n == (f - q) * p;
    DivBetween(s, p, f - q, q);
    assert (q + s / p) * p == q * p + s / p * p;
  }

  /** States below `s0`: one bit less. `h` is half the power of two of the shift. */
  lemma LowState(n: nat, f: nat, q: nat, h: nat, s: nat)
    requires h > 0 && n == q * (2 * h) && q <= f < 2 * q
    requires s < f * (2 * h) - n
    ensures n / h == 2 * q && 2 * n / (2 * h) == 2 * q
    ensures 2 * q - f <= 2 * q - f + s / h < f
    ensures s / h * h + s % h == s
  {
    assert n == 2 * q * h && 2 * n == 2 * q * (2 * h);
    DivModUnique(n, h, 2 * q, 0);
    DivModUnique(2 * n, 2 * h, 2 * q, 0);
    assert f * (2 * h) - n == (2 * f - 2 * q) * h;
    DivBetween(s, h, 0, 2 * f - 2 * q);
  }

  /** Every state is encoded into the symbol's slots, and the decoder entry found there
      names the symbol, asks for exactly the bits written, and leads back. */
  lemma EncodeThenDecode(e: EncEntry, n: nat, f: nat, offset: nat, symbol: byte, s: nat)
    requires States(n) && 0 < f <= n && s < n
    requires IsEncEntry(e, n, f, offset)
    ensures s >= e.s0 || e.k > 0
    ensures var c := Encode(e, s);
            && c.bits < Pow2(c.nbits)
            && offset <= c.state < offset + f
            && var d := DecEntryOf(n, f, c.state - offset, symbol);
               d.symbol == symbol && d.k == c.nbits && d.delta + c.bits == s
  {
    hide Log, Pow2;
    var k := Shift(n, f);
    var q := ShiftBounds(n, f);
    if s >= e.s0 {
      HighState(n, f, q, Pow2(k), s);
    } else {
      assert k > 0 by {
        if k == 0 { Pow2Zero(); assert false; }
      }
      Pow2Half(k);
      LowState(n, f, q, Pow2(k - 1), s);
    }
  }

  lemma Pow2Zero()
    ensures Pow2(0) == 1
  {
  }

  lemma Pow2Half(k: nat)
    requires k > 0
    ensures Pow2(k) == 2 * Pow2(k - 1)
  {
  }

  /** The other way round: every slot with every value of the bits it asks for is a state,
      and encoding that state writes those bits and returns to the slot. */
  lemma DecodeThenEncode(e: EncEntry, n: nat, f: nat, offset: nat, symbol: byte, j: nat, bits: nat)
    requires States(n) && 0 < f <= n && j < f
    requires IsEncEntry(e, n, f, offset)
    requires bits < Pow2(DecEntryOf(n, f, j, symbol).k)
    ensures var d := DecEntryOf(n, f, j, symbol);
            && 0 <= d.delta + bits < n
            && (d.delta + bits >= e.s0 || e.k > 0)
            && Encode(e, d.delta + bits) == Coded(d.k, bits, offset + j)
  {
    hide Log, Pow2;
    var k := Shift(n, f);
    var q := ShiftBounds(n, f);
    var p := Pow2(k);
    SlotBoundary(n, q, p);
    if j < 2 * q - f || k == 0 {
      assert k == 0 ==> p == 1 by { Pow2Zero(); }
      HighSlot(n, f, q, p, j, bits);
    } else {
      Pow2Half(k);
      LowSlot(n, f, q, Pow2(k - 1), j, bits);
    }
  }

  lemma SlotBoundary(n: nat, q: nat, p: nat)
    requires p > 0 && n == q * p
    ensures n / p == q && 2 * n / p == 2 * q
  {
    DivModUnique(n, p, q, 0);
    DivModUnique(2 * n, p, 2 * q, 0);
  }

  lemma HighSlot(n: nat, f: nat, q: nat, p: nat, j: nat, bits: nat)
    requires p > 0 && n == q * p && q <= f && j < 2 * q - f && bits < p
    ensures var s := (f + j) * p - n + bits;
            && 0 <= s < n && s >= f * p - n
            && s % p == bits && q - f + s / p == j
  {
    assert (f + j) * p - n == (f + j - q) * p;
    Position(f + j - q, q, p, bits);
    MulMonotone(f - q, f + j - q, p);
    assert (f - q) * p == f * p - n;
  }

  lemma LowSlot(n: nat, f: nat, q: nat, h: nat, j: nat, bits: nat)
    requires h > 0 && n == q * (2 * h) && q <= f < 2 * q && 2 * q - f <= j < f && bits < h
    ensures var s := (j - (2 * q - f)) * h + bits;
            && 0 <= s < f * (2 * h) - n <= n
            && n / h == 2 * q
            && s % h == bits && 2 * q - f + s / h == j
  {
    var i := j - (2 * q - f);
    assert n == 2 * q * h;
    DivModUnique(n, h, 2 * q, 0);
    assert (2 * f - 2 * q) * h == f * (2 * h) - n;
    MulMonotone(2 * f - 2 * q, 2 * q, h);
    Position(i, 2 * f - 2 * q, h, bits);
  }

  lemma Position(i: nat, m: nat, h: nat, bits: nat)
    requires i < m && bits < h
    ensures 0 <= i * h + bits < m * h
    ensures (i * h + bits) / h == i && (i * h + bits) % h == bits
  {
    MulMonotone(0, i, h);
    MulMonotone(i + 1, m, h);
    assert (i + 1) * h == i * h + h;
    DivModUnique(i * h + bits, h, i, bits);
  }

  /** With at most 2^14 states every field fits the program's 16-bit signed integers. */
  lemma FieldsFit(e: EncEntry, n: nat, f: nat, offset: nat, symbol: byte, j: nat)
    requires States(n) && 0 < f && offset + f <= n <= 0x4000 && j < f
    requires IsEncEntry(e, n, f, offset)
    ensures 0 <= e.s0 < n && 0 < e.delta0 + n <= 2 * n
    ensures e.k > 0 ==> 0 <= e.delta1 <= n
    ensures 0 <= DecEntryOf(n, f, j, symbol).delta < n
  {
    hide Log, Pow2, DecEntryOf;
    var k := Shift(n, f);
    var q := ShiftBounds(n, f);
    DivModUnique(n, Pow2(k), q, 0);
    DecodeThenEncode(e, n, f, offset, symbol, j, 0);
    MulAtLeast(q, Pow2(k));
    if k > 0 {
      Pow2Half(k);
      HalfBoundary(n, q, Pow2(k - 1));
    }
  }

  lemma HalfBoundary(n: nat, q: nat, h: nat)
    requires h > 0 && n == q * (2 * h)
    ensures n / h == 2 * q
  {
    assert q * (2 * h) == 2 * q * h;
    DivModUnique(n, h, 2 * q, 0);
  }

  // --------------------------------------------------------------------- tables

  ghost predicate IsEncTable(t: seq<EncEntry>, n: nat, freq: seq<nat>) {
    && Sum(freq) <= n && |t| == |freq|
    && forall i | 0 <= i < |freq| && freq[i] > 0 :: freq[i] <= n && IsEncEntry(t[i], n, freq[i], Sum(freq[..i]))
  }

  function Row(n: nat, f: nat, symbol: byte): (row: seq<DecEntry>)
    requires f <= n
    ensures |row| == f
  {
    seq(f, j requires 0 <= j < f => DecEntryOf(n, f, j, symbol))
  }

  /** The decoder table: the slots of every symbol, one symbol after the other. */
  function DecTable(n: nat, freq: seq<nat>): (t: seq<DecEntry>)
    requires Sum(freq) <= n && |freq| <= 256
    ensures |t| == Sum(freq)
  {
    if freq == [] then []
    else DecTable(n, freq[..|freq| - 1]) + Row(n, freq[|freq| - 1], |freq| - 1)
  }

  lemma {:induction false} DecTableAt(n: nat, freq: seq<nat>, i: nat, j: nat)
    requires Sum(freq) <= n && |freq| <= 256 && i < |freq| && j < freq[i]
    ensures Sum(freq[..i]) + j < Sum(freq)
    ensures freq[i] <= n && DecTable(n, freq)[Sum(freq[..i]) + j] == DecEntryOf(n, freq[i], j, i)
    decreases |freq|
  {
    SumAt(freq, i);
    var last := |freq| - 1;
    if i < last {
      assert freq[..last][..i] == freq[..i];
      DecTableAt(n, freq[..last], i, j);
    }
  }

  /** The tables are mutually inverse: a step of the encoder followed by a step of the
      decoder returns the symbol and the state. */
  lemma TablesInvert(t: seq<EncEntry>, n: nat, freq: seq<nat>, i: nat, s: nat)
    requires States(n) && |freq| <= 256 && IsEncTable(t, n, freq)
    requires i < |freq| && freq[i] > 0 && s < n
    ensures s >= t[i].s0 || t[i].k > 0
    ensures var c := Encode(t[i], s);
            && c.nbits <= Log(n) && c.bits < Pow2(c.nbits)
            && 0 <= c.state < Sum(freq)
            && var d := DecTable(n, freq)[c.state];
               d.symbol == i && d.k == c.nbits && d.delta + c.bits == s
  {
    hide DecTable, Encode, DecEntryOf, Log, Sum;
    var offset := Sum(freq[..i]);
    SumAt(freq, i);
    EncodeThenDecode(t[i], n, freq[i], offset, i, s);
    var c := Encode(t[i], s);
    DecTableAt(n, freq, i, c.state - offset);
    EncodeBits(t[i], s);
  }

  lemma EncodeBits(e: EncEntry, s: nat)
    requires s >= e.s0 || e.k > 0
    ensures Encode(e, s).nbits <= e.k
  {
  }

  /** fse_init_encoder_table: entries of unused symbols stay as they are. */
  method InitEncoderTable(n: nat, freq: seq<nat>, t: array<EncEntry>, junk: int)
    requires Sum(freq) <= n && t.Length == |freq|
    modifies t
    ensures IsEncTable(t[..], n, freq)
    ensures forall i | 0 <= i < |freq| && freq[i] == 0 :: t[i] == old(t[i])
  {
    hide Log, Pow2, Sum;
    var offset := 0;
    assert freq[..0] == [];
    SumNothing();
    for i := 0 to |freq|
      invariant offset == Sum(freq[..i])
      invariant forall a | 0 <= a < i && freq[a] > 0 :: freq[a] <= n && IsEncEntry(t[a], n, freq[a], Sum(freq[..a]))
      invariant forall a | 0 <= a < |freq| && (a >= i || freq[a] == 0) :: t[a] == old(t[a])
    {
      SumAt(freq, i);
      var f := freq[i];
      if f > 0 {
        var k := Shift(n, f);
        var p := Pow2(k);
        var delta1 := if k > 0 then offset - f + n / Pow2(k - 1) else junk;
        t[i] := EncEntry(f * p - n, k, offset - f + n / p, delta1);
        offset := offset + f;
      }
    }
  }

  lemma SumNothing()
    ensures Sum([]) == 0
  {
  }

  /** How many leading symbols fit `n` states together. */
  function Fitting(n: nat, freq: seq<nat>): (m: nat)
    ensures m <= |freq| && Sum(freq[..m]) <= n
    ensures m == |freq| <==> Sum(freq) <= n
  {
    if Sum(freq) <= n then
      assert freq[..|freq|] == freq;
      |freq|
    else
      var m := Fitting(n, freq[..|freq| - 1]);
      assert freq[..|freq| - 1][..m] == freq[..m];
      m
  }

  lemma {:induction false} FittingStops(n: nat, freq: seq<nat>, i: nat)
    requires i < |freq| && Sum(freq[..i]) <= n < Sum(freq[..i + 1])
    ensures Fitting(n, freq) == i
  {
    SumMonotone(freq, i + 1, |freq|);
    assert freq[..|freq|] == freq;
    if |freq| > i + 1 {
      assert freq[..|freq| - 1][..i] == freq[..i] && freq[..|freq| - 1][..i + 1] == freq[..i + 1];
      FittingStops(n, freq[..|freq| - 1], i);
    } else {
      assert freq[..i][..i] == freq[..i];
    }
  }

  /** fse_init_decoder_table: fails when the frequencies exceed the states, with the symbols
      up to there laid out. */
  method InitDecoderTable(n: nat, freq: seq<nat>, t: array<DecEntry>) returns (ok: bool)
    requires |freq| <= 256 && t.Length == n
    modifies t
    ensures ok <==> Sum(freq) <= n
    ensures var m := Fitting(n, freq);
            t[..] == DecTable(n, freq[..m]) + old(t[..])[Sum(freq[..m])..]
  {
    hide Sum, Fitting, DecEntryOf;
    var sum := 0;
    assert freq[..0] == [];
    SumNothing();
    for i := 0 to |freq|
      invariant sum == Sum(freq[..i]) <= n
      invariant t[..sum] == DecTable(n, freq[..i])
      invariant t[sum..] == old(t[..])[sum..]
    {
      SumAt(freq, i);
      var f := freq[i];
      assert freq[..i + 1][..i] == freq[..i];
      if sum + f > n {
        FittingStops(n, freq, i);
        assert t[..] == t[..sum] + t[sum..];
        return false;
      }
      FillRow(n, f, i, t, sum);
      sum := sum + f;
    }
    assert freq[..|freq|] == freq;
    assert t[..] == t[..sum] + t[sum..];
    ok := true;
  }

  method FillRow(n: nat, f: nat, symbol: byte, t: array<DecEntry>, at: nat)
    requires f <= n && at + f <= t.Length
    modifies t
    ensures t[..at + f] == old(t[..at]) + Row(n, f, symbol)
    ensures t[at + f..] == old(t[at + f..])
  {
    hide Shift;
    for j := 0 to f
      invariant forall a | 0 <= a < j :: t[at + a] == DecEntryOf(n, f, a, symbol)
      invariant forall a | 0 <= a < at || at + f <= a < t.Length :: t[a] == old(t[a])
    {
      var k := Shift(n, f);
      var j0 := 2 * n / Pow2(k) - f;
      if j < j0 || k == 0 {
        t[at + j] := DecEntry(k, symbol, (f + j) * Pow2(k) - n);
      } else {
        t[at + j] := DecEntry(k - 1, symbol, (j - j0) * Pow2(k - 1));
      }
    }
    assert forall a | 0 <= a < f :: t[..at + f][at + a] == Row(n, f, symbol)[a];
  }
}
