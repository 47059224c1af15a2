/** The match payload of an LZFSE block: literal length, match length and distance, each a
    symbol of its own tANS coder with extra bits below it, three to a refill. */
module FseMatches {
  import opened Arith
  import opened Words
  import opened FseTables
  import opened FseStream
  import opened FseLiterals

  // ------------------------------------------------------------------ value symbols

  /** Extra bits and first value of every symbol. */
  datatype Ranges = Ranges(extra: seq<nat>, base: seq<nat>)
  {
    /** Each range starts where the one before ends. */
    ghost predicate Contiguous() {
      && |extra| == |base| > 0 && base[0] == 0
      && forall i | 0 <= i < |base| - 1 :: base[i + 1] == base[i] + Pow2(extra[i])
    }

    function Limit(): nat
      requires |extra| == |base| > 0
    {
      base[|base| - 1] + Pow2(extra[|base| - 1])
    }
  }

  /** The program's tables, in rows of four: literal lengths below 316, match lengths below
      2360, distances below 262140. */
  const L_EXTRA: seq<seq<nat>> := [[0, 0, 0, 0], [0, 0, 0, 0], [0, 0, 0, 0], [0, 0, 0, 0], [2, 3, 5, 8]]
  const L_BASE: seq<seq<nat>> := [[0, 1, 2, 3], [4, 5, 6, 7], [8, 9, 10, 11], [12, 13, 14, 15], [16, 20, 28, 60]]
  const M_EXTRA: seq<seq<nat>> := [[0, 0, 0, 0], [0, 0, 0, 0], [0, 0, 0, 0], [0, 0, 0, 0], [3, 5, 8, 11]]
  const M_BASE: seq<seq<nat>> := [[0, 1, 2, 3], [4, 5, 6, 7], [8, 9, 10, 11], [12, 13, 14, 15], [16, 24, 56, 312]]
  const D_BASE: seq<seq<nat>> :=
    [[0, 1, 2, 3], [4, 6, 8, 10], [12, 16, 20, 24], [28, 36, 44, 52],
     [60, 76, 92, 108], [124, 156, 188, 220], [252, 316, 380, 444], [508, 636, 764, 892],
     [1020, 1276, 1532, 1788], [2044, 2556, 3068, 3580], [4092, 5116, 6140, 7164], [8188, 10236, 12284, 14332],
     [16380, 20476, 24572, 28668], [32764, 40956, 49148, 57340], [65532, 81916, 98300, 114684],
     [131068, 163836, 196604, 229372]]

  function Flattened(rows: seq<seq<nat>>): (r: seq<nat>)
    requires forall i | 0 <= i < |rows| :: |rows[i]| == 4
    ensures |r| == 4 * |rows|
  {
    seq(4 * |rows|, i requires 0 <= i < 4 * |rows| => rows[i / 4][i % 4])
  }

  /** The extra bits of distances: four symbols for every number from 0 to 15. */
  function DistanceRanges(): Ranges {
    Ranges(seq(64, i requires 0 <= i < 64 => i / 4), Flattened(D_BASE))
  }

  lemma DistanceRangesContiguous()
    ensures DistanceRanges().Contiguous() && DistanceRanges().Limit() == 262140
  {
    DistancePowers();
    var b := DistanceRanges().base;
    forall i | 0 <= i < 63
      ensures b[i + 1] == b[i] + Pow2(DistanceRanges().extra[i])
    {
      DistanceStep(i);
    }
  }

  lemma DistancePowers()
    ensures Pow2(0) == 1 && Pow2(1) == 2 && Pow2(2) == 4 && Pow2(3) == 8 && Pow2(4) == 16 && Pow2(5) == 32
    ensures Pow2(6) == 64 && Pow2(7) == 128 && Pow2(8) == 256 && Pow2(9) == 512 && Pow2(10) == 1024
    ensures Pow2(11) == 2048 && Pow2(12) == 4096 && Pow2(13) == 8192 && Pow2(14) == 16384 && Pow2(15) == 32768
  {
    Pow2Values();
    assert Pow2(15) == 2 * Pow2(14);
    assert Pow2(14) == 2 * Pow2(13) && Pow2(13) == 2 * Pow2(12) && Pow2(12) == 2 * Pow2(11);
    assert Pow2(11) == 2 * Pow2(10) && Pow2(10) == 2 * Pow2(9) && Pow2(9) == 2 * Pow2(8) && Pow2(8) == 2 * Pow2(7);
  }

  lemma DistanceStep(i: nat)
    requires i < 63
    ensures D_BASE[(i + 1) / 4][(i + 1) % 4] == D_BASE[i / 4][i % 4] + Pow2(i / 4)
  {
    if i < 32 {
      DistanceStepNear(i);
    } else {
      DistanceStepFar(i);
    }
  }

  lemma DistanceStepNear(i: nat)
    requires i < 32
    ensures D_BASE[(i + 1) / 4][(i + 1) % 4] == D_BASE[i / 4][i % 4] + Pow2(i / 4)
  {
    DistancePowers();
    hide Pow2;
    var k := i / 4;
    assert k == 0 || k == 1 || k == 2 || k == 3 || k == 4 || k == 5 || k == 6 || k == 7;
  }

  lemma DistanceStepFar(i: nat)
    requires 32 <= i < 63
    ensures D_BASE[(i + 1) / 4][(i + 1) % 4] == D_BASE[i / 4][i % 4] + Pow2(i / 4)
  {
    DistancePowers();
    hide Pow2;
    var k := i / 4;
    assert k == 8 || k == 9 || k == 10 || k == 11 || k == 12 || k == 13 || k == 14 || k == 15;
  }

  lemma LengthRangesContiguous()
    ensures var l := Ranges(Flattened(L_EXTRA), Flattened(L_BASE));
            l.Contiguous() && l.Limit() == 316
    ensures var m := Ranges(Flattened(M_EXTRA), Flattened(M_BASE));
            m.Contiguous() && m.Limit() == 2360
  {
    DistancePowers();
    forall i | 0 <= i < 19
      ensures L_BASE[(i + 1) / 4][(i + 1) % 4] == L_BASE[i / 4][i % 4] + Pow2(L_EXTRA[i / 4][i % 4])
      ensures M_BASE[(i + 1) / 4][(i + 1) % 4] == M_BASE[i / 4][i % 4] + Pow2(M_EXTRA[i / 4][i % 4])
    {
      LengthStep(i);
    }
  }

  lemma LengthStep(i: nat)
    requires i < 19
    ensures L_BASE[(i + 1) / 4][(i + 1) % 4] == L_BASE[i / 4][i % 4] + Pow2(L_EXTRA[i / 4][i % 4])
    ensures M_BASE[(i + 1) / 4][(i + 1) % 4] == M_BASE[i / 4][i % 4] + Pow2(M_EXTRA[i / 4][i % 4])
  {
    DistancePowers();
    hide Pow2;
    var k := i / 4;
    assert k == 0 || k == 1 || k == 2 || k == 3 || k == 4;
  }

  /** With 64, 64 and 256 states a triple takes at most 14, 17 and 23 bits. */
  lemma TripleWidths()
    ensures Log(64) == 6 && Log(256) == 8
    ensures forall i | 0 <= i < 20 :: Flattened(L_EXTRA)[i] + 6 <= 14 && Flattened(M_EXTRA)[i] + 6 <= 17
    ensures forall i | 0 <= i < 64 :: DistanceRanges().extra[i] + 8 <= 23
  {
    assert Log(4) == 2;
    assert Log(16) == 4;
    forall i | 0 <= i < 20
      ensures Flattened(L_EXTRA)[i] + 6 <= 14 && Flattened(M_EXTRA)[i] + 6 <= 17
    {
      var k := i / 4;
      assert k == 0 || k == 1 || k == 2 || k == 3 || k == 4;
    }
  }

  /** The last range that does not start above the value. */
  function SymbolFrom(base: seq<nat>, v: nat, i: nat): (s: nat)
    requires i < |base| && base[i] <= v
    ensures i <= s < |base| && base[s] <= v
    ensures s + 1 < |base| ==> v < base[s + 1]
    decreases |base| - i
  {
    if i + 1 < |base| && base[i + 1] <= v then SymbolFrom(base, v, i + 1) else i
  }

  /** A value below the limit is its symbol's first value and as many bits as it has extra. */
  lemma SymbolFits(r: Ranges, v: nat)
    requires r.Contiguous() && v < r.Limit()
    ensures var s := SymbolFrom(r.base, v, 0);
            r.base[s] <= v < r.base[s] + Pow2(r.extra[s])
  {
    hide Pow2;
  }

  // ---------------------------------------------------------------------- one value

  /** A tANS coder of symbols that stand for ranges of values; one value takes at most
      `width` bits. */
  datatype ValueCoder = ValueCoder(t: seq<EncEntry>, n: nat, freq: seq<nat>, r: Ranges, width: nat)
  {
    ghost predicate Valid() {
      && Coder(t, n, freq) && r.Contiguous() && |r.base| == |freq|
      && forall i | 0 <= i < |r.extra| :: r.extra[i] + Log(n) <= width
    }

    /** The value's symbol is one the coder knows. */
    ghost predicate Knows(v: nat)
      requires Valid()
    {
      v < r.Limit() && freq[SymbolFrom(r.base, v, 0)] > 0
    }
  }

  /** The extra bits first, then the symbol. */
  ghost function PutValue(c: ValueCoder, v: nat, s: nat, bits: Bits): (res: (nat, Bits))
    requires c.Valid() && c.Knows(v) && s < c.n && bits.Fits()
    ensures res.0 < c.n && res.1.Fits()
    ensures bits.count <= res.1.count <= bits.count + c.width
  {
    var x := SymbolFrom(c.r.base, v, 0);
    SymbolFits(c.r, v);
    PopUndoesPush(bits, c.r.extra[x], v - c.r.base[x]);
    EncodeOne(c.t, c.n, c.freq, x, s, bits.Push(c.r.extra[x], v - c.r.base[x]))
  }

  /** fse_value_decode: symbol and extra bits in one pull. */
  ghost function TakeValue(c: ValueCoder, s: nat, bits: Bits): (int, int, Bits)
    requires c.Valid() && s < c.n
    requires var e := DecTable(c.n, c.freq)[s];
             e.symbol < |c.freq| && e.k + c.r.extra[e.symbol] <= bits.count
  {
    var e := DecTable(c.n, c.freq)[s];
    var vbits := c.r.extra[e.symbol];
    var both := bits.Top(e.k + vbits);
    QuotientIsNat(both, Pow2(vbits));
    (c.r.base[e.symbol] + both % Pow2(vbits), e.delta + both / Pow2(vbits), bits.Pop(e.k + vbits))
  }

  /** A value comes back with the state and the stream in front of it. */
  lemma ValueRoundTrip(c: ValueCoder, v: nat, s: nat, bits: Bits)
    requires c.Valid() && c.Knows(v) && s < c.n && bits.Fits()
    ensures var (s', bits') := PutValue(c, v, s, bits);
            var e := DecTable(c.n, c.freq)[s'];
            && e.symbol < |c.freq| && e.k + c.r.extra[e.symbol] <= bits'.count
            && TakeValue(c, s', bits') == (v, s, bits)
  {
    hide Pow2, Log, DecTable, Encode, Sum, SymbolFrom;
    var x := SymbolFrom(c.r.base, v, 0);
    SymbolFits(c.r, v);
    var low, n := v - c.r.base[x], c.r.extra[x];
    TablesInvert(c.t, c.n, c.freq, x, s);
    var code := Encode(c.t[x], s);
    PopTwo(bits, n, low, code.nbits, code.bits);
    AddCommutes(code.nbits, n);
  }

  lemma AddCommutes(a: nat, b: nat)
    ensures a + b == b + a
  {
  }

  // --------------------------------------------------------------------- the triples

  datatype Triple = Triple(l: nat, m: nat, d: nat)

  /** Three states and the stream they share. */
  datatype Lanes = Lanes(l: nat, m: nat, d: nat, bits: Bits)

  /** The three coders; a triple fits the accumulator beside seven bits left over, and the
      56 bits a refill guarantees. */
  datatype Coders = Coders(l: ValueCoder, m: ValueCoder, d: ValueCoder)
  {
    ghost predicate Valid() {
      l.Valid() && m.Valid() && d.Valid() && l.width + m.width + d.width <= 56
    }

    ghost predicate Good(s: Lanes) {
      s.l < l.n && s.m < m.n && s.d < d.n && s.bits.Fits()
    }

    ghost predicate Knows(t: Triple)
      requires Valid()
    {
      l.Knows(t.l) && m.Knows(t.m) && d.Knows(t.d)
    }

    ghost predicate KnowsAll(ts: seq<Triple>)
      requires Valid()
    {
      forall i | 0 <= i < |ts| :: Knows(ts[i])
    }
  }

  /** Distance first, literal length last. */
  ghost function PutTriple(c: Coders, t: Triple, s: Lanes): (r: Lanes)
    requires c.Valid() && c.Knows(t) && c.Good(s)
    ensures c.Good(r) && s.bits.count <= r.bits.count <= s.bits.count + 56
  {
    var (d, b1) := PutValue(c.d, t.d, s.d, s.bits);
    var (m, b2) := PutValue(c.m, t.m, s.m, b1);
    var (l, b3) := PutValue(c.l, t.l, s.l, b2);
    Lanes(l, m, d, b3)
  }

  ghost function PutTriples(c: Coders, ts: seq<Triple>, s: Lanes): (r: Lanes)
    requires c.Valid() && c.KnowsAll(ts) && c.Good(s)
    ensures c.Good(r) && s.bits.count <= r.bits.count
  {
    if ts == [] then s else PutTriple(c, ts[0], PutTriples(c, ts[1..], s))
  }

  /** Whether a value can be taken from a state and a stream. */
  ghost predicate Ready(c: ValueCoder, s: int, bits: Bits)
    requires c.Valid()
  {
    && 0 <= s < c.n
    && var e := DecTable(c.n, c.freq)[s];
       e.symbol < |c.freq| && e.k + c.r.extra[e.symbol] <= bits.count
  }

  /** Literal length first, then match length, then distance. */
  ghost function TakeTriple(c: Coders, s: Lanes): Option<(int, int, int, int, int, int, Bits)>
    requires c.Valid()
  {
    if !Ready(c.l, s.l, s.bits) then None
    else
      var (l, sl, b1) := TakeValue(c.l, s.l, s.bits);
      if !Ready(c.m, s.m, b1) then None
      else
        var (m, sm, b2) := TakeValue(c.m, s.m, b1);
        if !Ready(c.d, s.d, b2) then None
        else
          var (d, sd, b3) := TakeValue(c.d, s.d, b2);
          Some((l, m, d, sl, sm, sd, b3))
  }

  lemma TripleRoundTrip(c: Coders, t: Triple, s: Lanes)
    requires c.Valid() && c.Knows(t) && c.Good(s)
    ensures TakeTriple(c, PutTriple(c, t, s)) == Some((t.l, t.m, t.d, s.l, s.m, s.d, s.bits))
  {
    hide PutValue, TakeValue, DecTable, Log, Pow2, Sum, SymbolFrom;
    var (d, b1) := PutValue(c.d, t.d, s.d, s.bits);
    var (m, b2) := PutValue(c.m, t.m, s.m, b1);
    ValueRoundTrip(c.d, t.d, s.d, s.bits);
    ValueRoundTrip(c.m, t.m, s.m, b1);
    ValueRoundTrip(c.l, t.l, s.l, b2);
  }

  /** `count` triples with a refill before each. */
  ghost function TakeTriples(c: Coders, start: nat, s: Lanes, count: nat): Option<(seq<Triple>, Lanes)>
    requires c.Valid()
    decreases count, c
  {
    if count == 0 then Some(([], s))
    else if s.bits.count < 8 * start + 56 then None
    else
      match TakeTriple(c, s)
      case None => None
      case Some((l, m, d, sl, sm, sd, b)) =>
        if l < 0 || m < 0 || d < 0 || sl < 0 || sm < 0 || sd < 0 then None
        else
          match TakeTriples(c, start, Lanes(sl, sm, sd, b), count - 1)
          case None => None
          case Some((rest, end)) => Some(([Triple(l, m, d)] + rest, end))
  }

  /** The match round trip: with 56 bits in front no refill fails, every triple comes back,
      and the three states and the stream end where the encoder began. */
  lemma {:induction false} TriplesRoundTrip(c: Coders, ts: seq<Triple>, s: Lanes, start: nat)
    requires c.Valid() && c.KnowsAll(ts) && c.Good(s) && s.bits.count >= 8 * start + 56
    ensures TakeTriples(c, start, PutTriples(c, ts, s), |ts|) == Some((ts, s))
    decreases |ts|
  {
    hide PutTriple, TakeTriple, Coders.Knows, ValueCoder.Valid, Coders.Good, Ready;
    if ts == [] {
    } else {
      TriplesRoundTrip(c, ts[1..], s, start);
      TripleRoundTrip(c, ts[0], PutTriples(c, ts[1..], s));
      assert [ts[0]] + ts[1..] == ts;
    }
  }

  // -------------------------------------------------------------- repeated distances

  /** A distance that repeats the one before is stored as zero. */
  function Marked(ds: seq<nat>, prev: nat): (r: seq<nat>)
    ensures |r| == |ds|
  {
    if ds == [] then []
    else if ds[0] == prev then [0] + Marked(ds[1..], prev)
    else [ds[0]] + Marked(ds[1..], ds[0])
  }

  /** A zero stands for the distance before. */
  function Restored(ds: seq<nat>, prev: int): (r: seq<int>)
    ensures |r| == |ds|
  {
    if ds == [] then []
    else
      var d: int := if ds[0] == 0 then prev else ds[0];
      [d] + Restored(ds[1..], d)
  }

  /** The decoder starts from an illegal distance and never needs it. */
  lemma {:induction false} DistancesReturn(ds: seq<nat>, p: nat, q: int)
    requires (forall i | 0 <= i < |ds| :: ds[i] > 0) && (p == 0 || p == q)
    ensures Restored(Marked(ds, p), q) == ds
    decreases |ds|
  {
    if ds == [] {
    } else {
      var r := Marked(ds, p);
      var d: nat := if ds[0] == p then p else ds[0];
      assert r[1..] == Marked(ds[1..], d);
      DistancesReturn(ds[1..], d, d);
      assert [ds[0]] + ds[1..] == ds;
    }
  }

  /** The loop of lzfse_encode_matches that marks repeated distances. */
  method MarkRepeats(ds: array<nat>)
    modifies ds
    ensures ds[..] == Marked(old(ds[..]), 0)
  {
    ghost var all := ds[..];
    var prev := 0;
    assert all[0..] == all;
    for i := 0 to ds.Length
      invariant ds[i..] == all[i..]
      invariant ds[..i] + Marked(all[i..], prev) == Marked(all, 0)
    {
      var d := ds[i];
      ghost var done := ds[..i];
      ghost var next := if d == prev then prev else d;
      assert all[i..][0] == d && all[i..][1..] == all[i + 1..] && ds[i..][1..] == ds[i + 1..];
      if d == prev {
        ds[i] := 0;
      } else {
        prev := d;
      }
      assert ds[..i + 1] == done + [ds[i]];
      assert done + [ds[i]] + Marked(all[i + 1..], next) == done + ([ds[i]] + Marked(all[i + 1..], next));
    }
  }
}
