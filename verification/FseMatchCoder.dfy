/** The loops over literal length, match length and distance of the LZFSE block coder, over
    the stream objects. */
module FseMatchCoder {
  import opened Arith
  import opened Words
  import opened FseTables
  import opened FseStream
  import opened FseLiterals
  import opened FseMatches
  import opened FseLiteralCoder

  /** One value: its extra bits, then its symbol. */
  method PutValueBits(out: OutStream, c: ValueCoder, v: nat, s: nat) returns (s': nat)
    requires c.Valid() && c.Knows(v) && s < c.n
    requires out.Valid() && out.nbits + c.width < 64 && out.Stack().Fits()
    modifies out`accum, out`nbits
    ensures out.Valid() && out.nbits <= old(out.nbits) + c.width
    ensures (s', out.Stack()) == PutValue(c, v, s, old(out.Stack()))
  {
    hide Log, Pow2, Sum, EncodeOne, SymbolFrom, Held, IsEncTable;
    var x := SymbolFrom(c.r.base, v, 0);
    SymbolFits(c.r, v);
    PopUndoesPush(out.Stack(), c.r.extra[x], v - c.r.base[x]);
    out.Push(c.r.extra[x], v - c.r.base[x]);
    s' := PutSymbol(out, c.t, c.n, c.freq, x, s);
  }

  /** One turn of the encoder's loop: distance, match length, literal length, one flush. */
  method PutTripleBits(out: OutStream, c: Coders, t: Triple, l: nat, m: nat, d: nat) returns (l': nat, m': nat, d': nat)
    requires c.Valid() && c.Knows(t) && l < c.l.n && m < c.m.n && d < c.d.n
    requires out.Valid() && out.nbits <= 7 && out.pos + 8 <= out.buf.Length && out.Stack().Fits()
    modifies out, out.buf
    ensures out.Valid() && out.nbits <= 7 && old(out.pos) <= out.pos <= old(out.pos) + 7
    ensures out.buf[..old(out.pos)] == old(out.buf[..out.pos])
    ensures Lanes(l', m', d', out.Stack()) == PutTriple(c, t, Lanes(l, m, d, old(out.Stack())))
  {
    hide PutValue, Held, Pow2, ValueCoder.Valid, ValueCoder.Knows;
    d' := PutValueBits(out, c.d, t.d, d);
    m' := PutValueBits(out, c.m, t.m, m);
    l' := PutValueBits(out, c.l, t.l, l);
    out.Flush();
  }

  /** The encoder's states and stream at the start of a payload behind the bytes `before`. */
  ghost function BeginLanes(before: seq<byte>): Lanes {
    Lanes(0, 0, 0, Bits(Value(before), 8 * |before|))
  }

  lemma BeginLanesGood(c: Coders, before: seq<byte>)
    requires c.Valid()
    ensures c.Good(BeginLanes(before))
  {
    ValueBelow(before);
  }

  /** Out of room exactly when less than sixteen bytes are left before the triple written
      last, which is the first of all. */
  ghost predicate TriplesFull(c: Coders, ts: seq<Triple>, before: seq<byte>, room: nat)
    requires c.Valid() && c.KnowsAll(ts)
  {
    && ts != []
    && (BeginLanesGood(c, before); PutTriples(c, ts[1..], BeginLanes(before)).bits.count / 8 + 16 > room)
  }

  lemma {:induction false} TripleCountGrows(c: Coders, ts: seq<Triple>, i: nat, s: Lanes)
    requires c.Valid() && c.KnowsAll(ts) && c.Good(s) && i <= |ts|
    ensures PutTriples(c, ts[i..], s).bits.count <= PutTriples(c, ts, s).bits.count
    decreases i
  {
    hide PutTriple, Coders.Knows, ValueCoder.Valid, Coders.Good;
    if i == 0 {
      assert ts[0..] == ts;
    } else {
      assert ts[1..][i - 1..] == ts[i..];
      TripleCountGrows(c, ts[1..], i - 1, s);
    }
  }

  lemma TripleBefore(c: Coders, ts: seq<Triple>, i: nat, s: Lanes)
    requires c.Valid() && c.KnowsAll(ts) && c.Good(s) && i < |ts|
    ensures PutTriples(c, ts[i..], s) == PutTriple(c, ts[i], PutTriples(c, ts[i + 1..], s))
  {
    hide PutTriple, Coders.Knows, ValueCoder.Valid, Coders.Good;
    assert ts[i..][1..] == ts[i + 1..] && ts[i..][0] == ts[i];
  }

  /** The loop from the last match to the first. */
  method EncodeTriples(out: OutStream, c: Coders, ts: seq<Triple>) returns (ok: bool, l: nat, m: nat, d: nat)
    requires c.Valid() && c.KnowsAll(ts)
    requires out.Valid() && out.nbits == 0 && out.Stack() == BeginLanes(out.buf[..out.pos]).bits
    modifies out, out.buf
    ensures out.Valid() && old(out.pos) <= out.pos && out.buf[..old(out.pos)] == old(out.buf[..out.pos])
    ensures !ok <==> TriplesFull(c, ts, old(out.buf[..out.pos]), out.buf.Length)
    ensures ok && ts != [] ==> out.pos + 8 <= out.buf.Length
    ensures ts == [] ==> out.pos == old(out.pos)
    ensures ok ==> (BeginLanesGood(c, old(out.buf[..out.pos]));
                    Lanes(l, m, d, out.Stack()) == PutTriples(c, ts, BeginLanes(old(out.buf[..out.pos]))))
  {
    hide PutTriple, Held, Value, Pow2, Coders.Knows, ValueCoder.Valid;
    ghost var before, at := out.buf[..out.pos], out.pos;
    ghost var s0 := BeginLanes(before);
    BeginLanesGood(c, before);
    l, m, d := 0, 0, 0;
    var i: nat := |ts|;
    while i > 0
      invariant i <= |ts| && out.Valid() && out.nbits <= 7 && at <= out.pos && out.buf[..at] == before
      invariant l < c.l.n && m < c.m.n && d < c.d.n && out.Stack().Fits()
      invariant Lanes(l, m, d, out.Stack()) == PutTriples(c, ts[i..], s0)
      invariant i == 0 && ts != [] ==> !TriplesFull(c, ts, before, out.buf.Length)
      invariant if i == |ts| then out.pos == at else out.pos + 8 <= out.buf.Length
      decreases i
    {
      if out.pos + 16 > out.buf.Length {
        assert ts[1..][i - 1..] == ts[i..];
        TripleCountGrows(c, ts[1..], i - 1, s0);
        ok := false;
        return;
      }
      i := i - 1;
      TripleBefore(c, ts, i, s0);
      l, m, d := PutTripleBits(out, c, ts[i], l, m, d);
    }
    assert ts[0..] == ts;
    ok := true;
  }

  // ---------------------------------------------------------------------- decoding

  /** With a value's width of bits the decoder never leaves its states or its stream. */
  lemma TakeValueSafe(c: ValueCoder, s: nat, bits: Bits)
    requires c.Valid() && s < c.n && bits.Fits() && c.width <= bits.count
    ensures Ready(c, s, bits)
    ensures var (v, s', bits') := TakeValue(c, s, bits);
            v >= 0 && 0 <= s' < c.n && bits'.Fits() && bits.count - c.width <= bits'.count
    ensures DecTable(c.n, c.freq)[s].k + c.r.extra[DecTable(c.n, c.freq)[s].symbol] <= c.width
  {
    hide Log, Pow2, DecTable, Sum, IsEncTable;
    DecTableIsSafe(c.n, c.freq);
    SymbolsInTable(c.n, c.freq);
    var e := DecTable(c.n, c.freq)[s];
    var vbits := c.r.extra[e.symbol];
    TopBelow(bits, e.k, vbits);
  }

  lemma TopBelow(bits: Bits, k: nat, vbits: nat)
    requires bits.Fits() && k + vbits <= bits.count
    ensures 0 <= bits.Top(k + vbits) / Pow2(vbits) < Pow2(k) && 0 <= bits.Top(k + vbits) % Pow2(vbits)
    ensures bits.Pop(k + vbits).Fits()
  {
    hide Pow2, Bits.Top, Bits.Pop, Bits.Fits;
    var n := k + vbits;
    TopFits(bits, n);
    Split(bits.Top(n), n, vbits);
    assert n - vbits == k;
  }

  lemma TopFits(bits: Bits, n: nat)
    requires bits.Fits() && n <= bits.count
    ensures bits.Top(n) < Pow2(n) && bits.Pop(n).Fits()
  {
    hide Pow2;
    Pow2Add(n, bits.count - n);
    QuotientBelow(bits.value, Pow2(bits.count - n), Pow2(n));
  }

  lemma QuotientBelow(v: nat, p: nat, q: nat)
    requires p > 0 && v < q * p
    ensures 0 <= v / p < q && 0 <= v % p < p
  {
    DivBetween(v, p, 0, q);
  }

  lemma Split(x: nat, n: nat, m: nat)
    requires m <= n && x < Pow2(n)
    ensures 0 <= x / Pow2(m) < Pow2(n - m) && 0 <= x % Pow2(m)
  {
    hide Pow2;
    HighPart(x, n, m);
    QuotientIsNat(x, Pow2(m));
  }

  lemma {:induction false} SymbolsInTable(n: nat, freq: seq<nat>)
    requires Sum(freq) <= n && |freq| <= 256
    ensures forall i | 0 <= i < Sum(freq) :: DecTable(n, freq)[i].symbol < |freq|
    decreases freq
  {
    if freq != [] {
      SymbolsInTable(n, freq[..|freq| - 1]);
    }
  }

  /** fse_value_decode. */
  method PullValue(input: InStream, c: ValueCoder, table: seq<DecEntry>, s: nat) returns (v: nat, s': nat)
    requires c.Valid() && table == DecTable(c.n, c.freq) && s < c.n
    requires input.Valid() && c.width <= input.nbits && input.Stack().Fits()
    modifies input`accum, input`nbits
    ensures input.Valid() && input.nbits >= old(input.nbits) - c.width && s' < c.n && input.Stack().Fits()
    ensures Ready(c, s, old(input.Stack())) && (v, s', input.Stack()) == TakeValue(c, s, old(input.Stack()))
  {
    hide Log, Pow2, DecTable, Sum, Held, IsEncTable;
    TakeValueSafe(c, s, input.Stack());
    var e := table[s];
    var vbits := c.r.extra[e.symbol];
    var both := input.Pull(e.k + vbits);
    v, s' := c.r.base[e.symbol] + both % Pow2(vbits), e.delta + both / Pow2(vbits);
  }

  /** One turn of the decoder's loop: one refill for the three values. */
  method PullTriple(input: InStream, c: Coders, tl: seq<DecEntry>, tm: seq<DecEntry>, td: seq<DecEntry>, l: nat, m: nat, d: nat)
    returns (ok: bool, t: Triple, l': nat, m': nat, d': nat)
    requires c.Valid() && l < c.l.n && m < c.m.n && d < c.d.n
    requires tl == DecTable(c.l.n, c.l.freq) && tm == DecTable(c.m.n, c.m.freq) && td == DecTable(c.d.n, c.d.freq)
    requires input.Valid() && input.Stack().Fits()
    modifies input`pos, input`accum, input`nbits
    ensures ok <==> old(input.Stack().count) >= 8 * input.start + 56
    ensures ok ==> input.Valid() && input.Stack().Fits() && l' < c.l.n && m' < c.m.n && d' < c.d.n
    ensures ok ==> TakeTriple(c, Lanes(l, m, d, old(input.Stack()))) == Some((t.l, t.m, t.d, l', m', d', input.Stack()))
  {
    hide TakeValue, Ready, Held, Pow2, DecTable, ValueCoder.Valid;
    t, l', m', d' := Triple(0, 0, 0), l, m, d;
    ok := input.Flush();
    if !ok { return; }
    var lv, mv, dv;
    lv, l' := PullValue(input, c.l, tl, l);
    mv, m' := PullValue(input, c.m, tm, m);
    dv, d' := PullValue(input, c.d, td, d);
    t := Triple(lv, mv, dv);
  }

  /** The decoder's loop over the triples of a block, without what it does with them. */
  method DecodeTriples(input: InStream, c: Coders, tl: seq<DecEntry>, tm: seq<DecEntry>, td: seq<DecEntry>, l0: nat, m0: nat, d0: nat, count: nat)
    returns (ok: bool, ts: seq<Triple>)
    requires c.Valid() && l0 < c.l.n && m0 < c.m.n && d0 < c.d.n
    requires tl == DecTable(c.l.n, c.l.freq) && tm == DecTable(c.m.n, c.m.freq) && td == DecTable(c.d.n, c.d.freq)
    requires input.Valid() && input.Stack().Fits()
    modifies input`pos, input`accum, input`nbits
    ensures var r := TakeTriples(c, input.start, Lanes(l0, m0, d0, old(input.Stack())), count);
            if ok then r.Some? && r.value.0 == ts else r == None
  {
    hide TakeTriple, Held, Pow2, DecTable, ValueCoder.Valid;
    ts := [];
    var l: nat, m: nat, d: nat := l0, m0, d0;
    ghost var s0 := Lanes(l0, m0, d0, input.Stack());
    InFrontNothing(TakeTriples(c, input.start, s0, count));
    for i := 0 to count
      invariant input.Valid() && input.Stack().Fits() && l < c.l.n && m < c.m.n && d < c.d.n
      invariant TakeTriples(c, input.start, s0, count)
             == InFront(ts, TakeTriples(c, input.start, Lanes(l, m, d, input.Stack()), count - i))
    {
      ghost var now := Lanes(l, m, d, input.Stack());
      var t;
      ok, t, l, m, d := PullTriple(input, c, tl, tm, td, l, m, d);
      if !ok { return; }
      NextTriple(c, input.start, now, count - i, ts, t, Lanes(l, m, d, input.Stack()));
      ts := ts + [t];
    }
    assert ts + [] == ts;
    ok := true;
  }

  ghost function InFront(done: seq<Triple>, r: Option<(seq<Triple>, Lanes)>): Option<(seq<Triple>, Lanes)> {
    match r
    case None => None
    case Some((rest, s)) => Some((done + rest, s))
  }

  lemma InFrontNothing(r: Option<(seq<Triple>, Lanes)>)
    ensures InFront([], r) == r
  {
    if r.Some? {
      assert [] + r.value.0 == r.value.0;
    }
  }

  lemma NextTriple(c: Coders, start: nat, s: Lanes, count: nat, done: seq<Triple>, t: Triple, s': Lanes)
    requires c.Valid() && count > 0 && s.bits.count >= 8 * start + 56
    requires TakeTriple(c, s) == Some((t.l, t.m, t.d, s'.l, s'.m, s'.d, s'.bits))
    ensures InFront(done, TakeTriples(c, start, s, count)) == InFront(done + [t], TakeTriples(c, start, s', count - 1))
  {
    hide TakeTriple, ValueCoder.Valid;
    var r := TakeTriples(c, start, s', count - 1);
    if r.Some? {
      assert done + [t] + r.value.0 == done + ([t] + r.value.0);
    }
  }
}
