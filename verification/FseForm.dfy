/** The LZFSE payloads in numbers: what a slot stands for, which symbol and which bits are on
    top of a stream, and which symbol stands for a value. */
module FseForm {
  import opened Arith
  import opened Words
  import opened FseTables
  import opened FseStream
  import opened FseLiterals
  import opened FseMatches
  import opened FseBlock
  import ZstdTable

  // --------------------------------------------------------------------- the slots

  /** Slot `j` of a symbol of frequency `f` stands for the number `f + j`: shifted until it lies
      between the number of states and twice that number, it gives bits and next state. */
  lemma SlotByNumber(n: nat, f: nat, j: nat, symbol: byte)
    requires States(n) && 0 < f <= n && j < f
    ensures var d := DecEntryOf(n, f, j, symbol);
            && d.symbol == symbol
            && n <= (f + j) * Pow2(d.k) < 2 * n
            && d.delta == (f + j) * Pow2(d.k) - n
  {
    hide Log, Pow2, DecEntryOf;
    ZstdTable.CellIsSlot(Log(n), f, j, symbol);
    ZstdTable.StateNumber(Log(n), f + j);
  }

  // ------------------------------------------------------------------ the literals

  /** After a group is coded its four states name its literals, and the bits of the first
      literal are on top: they lead its state back. */
  lemma FirstLiteralOnTop(t: seq<EncEntry>, n: nat, freq: seq<nat>, g: seq<byte>, m: Machine)
    requires Coder(t, n, freq) && |g| == 4 && Used(freq, g) && m.Good(n)
    ensures var r := EncodeGroup(t, n, freq, g, m);
            var table := DecTable(n, freq);
            && |table| == n
            && table[r.s0].symbol == g[0] && table[r.s1].symbol == g[1]
            && table[r.s2].symbol == g[2] && table[r.s3].symbol == g[3]
            && table[r.s0].k <= r.bits.count
            && table[r.s0].delta + r.bits.Top(table[r.s0].k) == m.s0
  {
    hide DecTable, EncodeOne, Log, Sum, IsEncTable, States;
    var (s3, b3) := EncodeOne(t, n, freq, g[3], m.s3, m.bits);
    var (s2, b2) := EncodeOne(t, n, freq, g[2], m.s2, b3);
    var (s1, b1) := EncodeOne(t, n, freq, g[1], m.s1, b2);
    OneRoundTrip(t, n, freq, g[3], m.s3, m.bits);
    OneRoundTrip(t, n, freq, g[2], m.s2, b3);
    OneRoundTrip(t, n, freq, g[1], m.s1, b2);
    OneRoundTrip(t, n, freq, g[0], m.s0, b1);
  }

  /** The recorded states of a payload name its first four literals. */
  lemma RecordedStates(p: Payload, t: seq<EncEntry>, n: nat, freq: seq<nat>, lits: seq<byte>, buf: seq<byte>, at: nat)
    requires Coder(t, n, freq) && |lits| % 4 == 0 && Used(freq, lits) && |lits| >= 4
    requires Describes(p, t, n, freq, lits, buf, at)
    ensures p.s0 < n && p.s1 < n && p.s2 < n && p.s3 < n && |DecTable(n, freq)| == n
    ensures DecTable(n, freq)[p.s0].symbol == lits[0] && DecTable(n, freq)[p.s1].symbol == lits[1]
    ensures DecTable(n, freq)[p.s2].symbol == lits[2] && DecTable(n, freq)[p.s3].symbol == lits[3]
  {
    hide EncodeGroup, DecTable, Sum, IsEncTable, States, Log, Pow2, Value;
    BeginIsGood(buf[..at], n);
    FirstLiteralOnTop(t, n, freq, lits[..4], EncodeGroups(t, n, freq, lits[4..], Begin(buf[..at])));
  }

  // ------------------------------------------------------------------- the matches

  /** A coded value: its state names its symbol, and on top of the stream are the state's bits
      above the value's distance from the first value of its range. */
  lemma ValueOnTop(c: ValueCoder, v: nat, s: nat, bits: Bits)
    requires c.Valid() && c.Knows(v) && s < c.n && bits.Fits()
    ensures var (s', bits') := PutValue(c, v, s, bits);
            var e := DecTable(c.n, c.freq)[s'];
            && e.symbol < |c.freq| && e.k + c.r.extra[e.symbol] <= bits'.count
            && c.r.base[e.symbol] <= v < c.r.base[e.symbol] + Pow2(c.r.extra[e.symbol])
            && bits'.Top(e.k + c.r.extra[e.symbol])
                 == (s - e.delta) * Pow2(c.r.extra[e.symbol]) + (v - c.r.base[e.symbol])
  {
    hide Pow2, Log, DecTable, Sum, SymbolFrom, PutValue;
    var (s', bits') := PutValue(c, v, s, bits);
    ValueRoundTrip(c, v, s, bits);
    var e := DecTable(c.n, c.freq)[s'];
    var both := bits'.Top(e.k + c.r.extra[e.symbol]);
    Digits(both, Pow2(c.r.extra[e.symbol]));
  }

  lemma Digits(x: nat, p: nat)
    requires p > 0
    ensures 0 <= x % p < p && x == x / p * p + x % p
  {
  }

  /** The literal length of a triple is on top, below it the match length, and the distance at
      the bottom. */
  lemma LengthOnTop(c: Coders, t: Triple, s: Lanes)
    requires c.Valid() && c.Knows(t) && c.Good(s)
    ensures var r := PutTriple(c, t, s);
            && Ready(c.l, r.l, r.bits)
            && var (l, _, below) := TakeValue(c.l, r.l, r.bits);
            && l == t.l && Ready(c.m, r.m, below)
            && var (m, _, bottom) := TakeValue(c.m, r.m, below);
            && m == t.m && Ready(c.d, r.d, bottom)
            && TakeValue(c.d, r.d, bottom).0 == t.d && TakeValue(c.d, r.d, bottom).2 == s.bits
  {
    hide PutValue, TakeValue, DecTable, Log, Pow2, Sum, SymbolFrom;
    var (d, b1) := PutValue(c.d, t.d, s.d, s.bits);
    var (m, b2) := PutValue(c.m, t.m, s.m, b1);
    ValueRoundTrip(c.d, t.d, s.d, s.bits);
    ValueRoundTrip(c.m, t.m, s.m, b1);
    ValueRoundTrip(c.l, t.l, s.l, b2);
  }

  // ---------------------------------------------------------------- value symbols

  lemma LiteralLengthSymbols(v: nat)
    requires v < 316
    ensures var s := LiteralLengthSymbol(v);
            s == if v < 16 then v else if v < 20 then 16 else if v < 28 then 17 else if v < 60 then 18 else 19
  {
    var s := LiteralLengthSymbol(v);
    hide Flattened, SymbolFrom;
    LengthBases(s);
  }

  lemma MatchLengthSymbols(v: nat)
    requires v < 2360
    ensures var s := MatchLengthSymbol(v);
            s == if v < 16 then v else if v < 24 then 16 else if v < 56 then 17 else if v < 312 then 18 else 19
  {
    var s := MatchLengthSymbol(v);
    hide Flattened, SymbolFrom;
    LengthBases(s);
  }

  lemma LengthBases(s: nat)
    requires s < 20
    ensures Flattened(L_BASE)[s] == if s < 16 then s else if s == 16 then 16 else if s == 17 then 20 else if s == 18 then 28 else 60
    ensures Flattened(M_BASE)[s] == if s < 16 then s else if s == 16 then 16 else if s == 17 then 24 else if s == 18 then 56 else 312
    ensures s < 19 ==> Flattened(L_BASE)[s + 1] == if s < 15 then s + 1 else if s == 15 then 16 else if s == 16 then 20 else if s == 17 then 28 else 60
    ensures s < 19 ==> Flattened(M_BASE)[s + 1] == if s < 15 then s + 1 else if s == 15 then 16 else if s == 16 then 24 else if s == 17 then 56 else 312
  {
    var k, j := s / 4, (s + 1) / 4;
    assert k == 0 || k == 1 || k == 2 || k == 3 || k == 4;
    assert j == k || j == k + 1;
  }

  /** Distance symbols come four to every width: symbol `4 * e + q` stands for the `2^e`
      distances from `(4 + q) * 2^e - 4` on. */
  lemma DistanceSymbols(i: nat)
    requires i < 64
    ensures DistanceRanges().extra[i] == i / 4
    ensures DistanceRanges().base[i] == (4 + i % 4) * Pow2(i / 4) - 4
  {
    DistancePowers();
    hide Pow2;
    var k := i / 4;
    if k < 8 {
      assert k == 0 || k == 1 || k == 2 || k == 3 || k == 4 || k == 5 || k == 6 || k == 7;
    } else {
      assert k == 8 || k == 9 || k == 10 || k == 11 || k == 12 || k == 13 || k == 14 || k == 15;
    }
  }
}
