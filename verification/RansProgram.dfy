/** The entropy coder as it runs: buffers filled in place, from the end downwards when
    encoding and forwards when decoding. */
module RansProgram {
  import opened Arith
  import opened Words
  import opened Rans64
  import opened Normalize
  import opened Stats
  import opened Bytes
  import opened FreqHeader
  import opened RansCodec

  /** Rans64EncPutSymbol: push a word if the state is too large, then code the symbol
      with the multiply-high form. */
  method EncPutSymbol(x: State, buf: array<byte>, p: nat, sym: EncSymbol, bits: nat, ghost start: nat)
    returns (z: State, q: nat)
    requires Slot(start, sym.freq, bits) && Faithful(sym, start, sym.freq, bits)
    requires 4 * |EncStep(x, start, sym.freq, bits).1| <= p <= buf.Length
    modifies buf
    ensures z == EncStep(x, start, sym.freq, bits).0
    ensures q == p - 4 * |EncStep(x, start, sym.freq, bits).1|
    ensures buf[q..] == Flat(EncStep(x, start, sym.freq, bits).1) + old(buf[p..])
    ensures forall k | 0 <= k < q :: buf[k] == old(buf[k])
  {
    var y: qword := x;
    q := p;
    if x >= (L / Pow2(bits)) * B32 * sym.freq {
      q := StoreBelow(buf, q, LE32(x % B32));
      y := x / B32;
    }
    assert y == Renorm(x, sym.freq, bits).0;
    FastStep(x, y, sym, start, bits);
    z := FastPut(y, sym);
  }

  /** The multiply-high form computes the encoder step on a renormalised state. */
  lemma FastStep(x: State, y: nat, sym: EncSymbol, start: nat, bits: nat)
    requires Slot(start, sym.freq, bits) && Faithful(sym, start, sym.freq, bits)
    requires y == Renorm(x, sym.freq, bits).0
    ensures y < TOP
    ensures L <= FastPut(y, sym) < TOP
    ensures FastPut(y, sym) == Put(y, start, sym.freq, bits)
  {
    RenormPositive(x, sym.freq, bits);
    RenormRange(x, sym.freq, bits);
    PutRange(y, start, sym.freq, bits);
    NoWrap(y, sym, start, bits);
  }

  lemma NoWrap(y: nat, sym: EncSymbol, start: nat, bits: nat)
    requires sym.freq > 0 && Faithful(sym, start, sym.freq, bits)
    requires 1 <= y < TOP
    requires L <= Put(y, start, sym.freq, bits) < TOP
    ensures FastPut(y, sym) == Put(y, start, sym.freq, bits)
  {
    hide FastPut, Put, Pow2;
    assert FastPut(y, sym) == Put(y, start, sym.freq, bits) % B64;
    DivModUnique(Put(y, start, sym.freq, bits), B64, 0, Put(y, start, sym.freq, bits));
  }

  lemma RenormPositive(x: State, freq: nat, bits: nat)
    requires bits <= 31 && 0 < freq <= Pow2(bits)
    ensures 1 <= Renorm(x, freq, bits).0 < TOP
  {
    DivBetween(x, B32, 0, TOP);
    if x >= XMax(freq, bits) {
      XMaxIsPower(freq, bits);
      Scale(bits);
      MulMonotone(1, freq, Pow2(63 - bits));
      DivBetween(x, B32, 1, TOP);
    }
  }

  /** Encoding a suffix pushes no more words than encoding the whole. */
  lemma {:induction false} SuffixWords(data: seq<byte>, cum: seq<int>, half: nat)
    requires Covers(cum, data) && 2 * half <= |data|
    ensures |EncodeAll(data[2 * half..], cum).words| <= |EncodeAll(data, cum).words|
    decreases |data|
  {
    if half == 0 {
      assert data[0..] == data;
    } else {
      SuffixWords(data[2..], cum, half - 1);
      assert data[2..][2 * (half - 1)..] == data[2 * half..];
    }
  }

  lemma {:induction false} SuffixHeader(freqs: seq<dword>, i: nat, j: nat)
    requires i <= j <= |freqs|
    ensures |Header(freqs, j)| <= |Header(freqs, i)|
    decreases j - i
  {
    if i == j {
    } else {
      SuffixHeader(freqs, i + 1, j);
    }
  }

  method PutThreeByteFreq(buf: array<byte>, p: nat, f: dword) returns (q: nat)
    requires 0x3FFF < f <= 0x3F_FFFF && |EncodeFreq(f)| <= p <= buf.Length
    modifies buf
    ensures q == p - |EncodeFreq(f)|
    ensures buf[q..] == EncodeFreq(f) + old(buf[p..])
    ensures forall k | 0 <= k < q :: buf[k] == old(buf[k])
  {
    hide HighByte, LE16, LE32;
    ghost var above := buf[p..];
    var low: seq<byte> := LE16(f % 0x1_0000);
    var first := HighByte(f);
    q := StoreBelow(buf, p, low);
    q := StoreBelow(buf, q, [first]);
    assert [first] + (low + above) == [first] + low + above;
  }

  /** Store one frequency below the cursor, in one to four bytes. */
  method PutFreq(buf: array<byte>, p: nat, f: dword) returns (q: nat)
    requires |EncodeFreq(f)| <= p <= buf.Length
    modifies buf
    ensures q == p - |EncodeFreq(f)|
    ensures buf[q..] == EncodeFreq(f) + old(buf[p..])
    ensures forall k | 0 <= k < q :: buf[k] == old(buf[k])
  {
    hide LE16, LE32;
    if f <= 0x3F {
      q := StoreBelow(buf, p, [f * 4]);
    } else if f <= 0x3FFF {
      q := StoreBelow(buf, p, LE16(f * 4 + 1));
    } else if f <= 0x3F_FFFF {
      q := PutThreeByteFreq(buf, p, f);
    } else {
      q := StoreBelow(buf, p, LE32((f * 4 + 3) % B32));
    }
  }

  /** The encoder symbols of a table. */
  ghost predicate SymbolOf(sym: EncSymbol, cum: seq<int>, k: nat)
    requires k + 1 < |cum|
  {
    0 <= cum[k] && 0 <= Width(cum, k) && Faithful(sym, cum[k], Width(cum, k), PROB_BITS)
  }

  ghost predicate Symbols(esyms: seq<EncSymbol>, cum: seq<int>) {
    && Table(cum) && |esyms| == SYMBOLS
    && forall k | 0 <= k < SYMBOLS :: SymbolOf(esyms[k], cum, k)
  }

  method InitSymbol(cum: seq<int>, k: nat) returns (sym: EncSymbol)
    requires Table(cum) && k < SYMBOLS
    ensures SymbolOf(sym, cum, k)
  {
    ScaleIsPower();
    FairMonotone(cum, 0, k);
    FairMonotone(cum, k + 1, SYMBOLS);
    sym := EncSymbolInit(cum[k], Width(cum, k), PROB_BITS);
  }

  method InitSymbols(cum: seq<int>) returns (esyms: array<EncSymbol>)
    requires Table(cum)
    ensures fresh(esyms) && Symbols(esyms[..], cum)
  {
    esyms := new EncSymbol[SYMBOLS](_ => EncSymbol(0, 0, 0, 0, 0));
    for i := 0 to SYMBOLS
      invariant forall k | 0 <= k < i :: SymbolOf(esyms[k], cum, k)
    {
      var sym := InitSymbol(cum, i);
      esyms[i] := sym;
    }
  }

  lemma SymbolIsFaithful(esyms: seq<EncSymbol>, cum: seq<int>, b: byte)
    requires Symbols(esyms, cum)
    ensures 0 <= cum[b] && esyms[b].freq == Width(cum, b)
    ensures Faithful(esyms[b], cum[b], esyms[b].freq, PROB_BITS)
  {
    assert SymbolOf(esyms[b], cum, b);
  }

  /** One byte of the encoding loop, on top of the words already there. */
  method EncPutByte(x: State, buf: array<byte>, p: nat, esyms: seq<EncSymbol>, b: byte,
                    ghost cum: seq<int>, ghost words: seq<dword>, ghost above: seq<byte>)
    returns (z: State, q: nat)
    requires Symbols(esyms, cum) && Width(cum, b) > 0
    requires p <= buf.Length && buf[p..] == Flat(words) + above
    requires 4 * |PutByte(x, cum, b).1| <= p
    modifies buf
    ensures z == PutByte(x, cum, b).0
    ensures q == p - 4 * |PutByte(x, cum, b).1|
    ensures buf[q..] == Flat(PutByte(x, cum, b).1 + words) + above
    ensures forall k | 0 <= k < q :: buf[k] == old(buf[k])
  {
    hide Flat, EncStep, Faithful, Pow2;
    SlotOfByte(cum, b);
    SymbolIsFaithful(esyms, cum, b);
    ghost var out := PutByte(x, cum, b).1;
    FlatConcat(out, words);
    z, q := EncPutSymbol(x, buf, p, esyms[b], PROB_BITS, cum[b]);
    assert Flat(out) + (Flat(words) + above) == Flat(out) + Flat(words) + above;
  }

  /** Two bytes of the encoding loop, state 1 first, on top of the words already there. */
  method EncPutPair(x0: State, x1: State, buf: array<byte>, p: nat, esyms: seq<EncSymbol>,
                    b0: byte, b1: byte, ghost cum: seq<int>, ghost words: seq<dword>, ghost above: seq<byte>)
    returns (z0: State, z1: State, q: nat)
    requires Symbols(esyms, cum) && Width(cum, b0) > 0 && Width(cum, b1) > 0
    requires p <= buf.Length && buf[p..] == Flat(words) + above
    requires 4 * (|PutPair(Coder(x0, x1, words), cum, b0, b1).words| - |words|) <= p
    modifies buf
    ensures Coder(z0, z1, PutPair(Coder(x0, x1, words), cum, b0, b1).words) == PutPair(Coder(x0, x1, words), cum, b0, b1)
    ensures q <= p
    ensures q == p - 4 * (|PutPair(Coder(x0, x1, words), cum, b0, b1).words| - |words|)
    ensures buf[q..] == Flat(PutPair(Coder(x0, x1, words), cum, b0, b1).words) + above
    ensures forall k | 0 <= k < q :: buf[k] == old(buf[k])
  {
    z1, q := EncPutByte(x1, buf, p, esyms, b1, cum, words, above);
    z0, q := EncPutByte(x0, buf, q, esyms, b0, cum, PutByte(x1, cum, b1).1 + words, above);
  }

  /** The odd last byte goes first, alone, on state 0. */
  method EncodeOddByte(data: seq<byte>, buf: array<byte>, end: nat, esyms: seq<EncSymbol>, ghost cum: seq<int>)
    returns (rans0: State, p: nat)
    requires |data| <= 1
    requires Symbols(esyms, cum) && Covers(cum, data)
    requires 4 * |EncodeAll(data, cum).words| <= end <= buf.Length
    modifies buf
    ensures Coder(rans0, L, EncodeAll(data, cum).words) == EncodeAll(data, cum)
    ensures p == end - 4 * |EncodeAll(data, cum).words|
    ensures buf[p..] == Flat(EncodeAll(data, cum).words) + old(buf[end..])
    ensures forall k | 0 <= k < p :: buf[k] == old(buf[k])
  {
    rans0, p := L, end;
    if |data| == 1 {
      assert PutByte(rans0, cum, data[0]).1 + [] == PutByte(rans0, cum, data[0]).1;
      rans0, p := EncPutByte(rans0, buf, p, esyms, data[0], cum, [], old(buf[end..]));
    }
  }

  /** The encoding loop: from the last byte to the first, two states, one stack. */
  method EncodeBytes(data: seq<byte>, buf: array<byte>, end: nat, esyms: seq<EncSymbol>, ghost cum: seq<int>)
    returns (rans0: State, rans1: State, p: nat)
    requires Symbols(esyms, cum) && Covers(cum, data)
    requires 4 * |EncodeAll(data, cum).words| <= end <= buf.Length
    modifies buf
    ensures Coder(rans0, rans1, EncodeAll(data, cum).words) == EncodeAll(data, cum)
    ensures p == end - 4 * |EncodeAll(data, cum).words|
    ensures buf[p..] == Flat(EncodeAll(data, cum).words) + old(buf[end..])
    ensures forall k | 0 <= k < p :: buf[k] == old(buf[k])
  {
    hide EncodeAll, Flat, Symbols, PutPair;
    var i := |data| - |data| % 2;
    ghost var half := |data| / 2;
    ghost var c := EncodeAll(data[i..], cum);
    SuffixWords(data, cum, half);
    rans0, p := EncodeOddByte(data[i..], buf, end, esyms, cum);
    rans1 := L;
    while i > 0
      invariant 0 <= i <= |data| && i == 2 * half
      invariant c == EncodeAll(data[i..], cum)
      invariant rans0 == c.x0 && rans1 == c.x1
      invariant p == end - 4 * |c.words|
      invariant buf[p..] == Flat(c.words) + old(buf[end..])
      invariant forall k | 0 <= k < p :: buf[k] == old(buf[k])
    {
      half := half - 1;
      SuffixWords(data, cum, half);
      EncodeTwoMore(data, cum, i);
      rans0, rans1, p := EncPutPair(rans0, rans1, buf, p, esyms, data[i - 2], data[i - 1], cum, c.words, old(buf[end..]));
      c := EncodeAll(data[i - 2..], cum);
      i := i - 2;
    }
    assert data[0..] == data;
  }

  lemma EncodeTwoMore(data: seq<byte>, cum: seq<int>, i: nat)
    requires Covers(cum, data) && 2 <= i <= |data|
    ensures EncodeAll(data[i - 2..], cum) == PutPair(EncodeAll(data[i..], cum), cum, data[i - 2], data[i - 1])
  {
    assert data[i - 2..][2..] == data[i..];
  }

  /** Rans64EncFlush: both halves of a state below the cursor. */
  method EncFlush(x: State, buf: array<byte>, p: nat, ghost words: seq<dword>, ghost above: seq<byte>)
    returns (q: nat)
    requires 8 <= p <= buf.Length && buf[p..] == Flat(words) + above
    modifies buf
    ensures q == p - 8
    ensures buf[q..] == Flat([x % B32, x / B32] + words) + above
    ensures forall k | 0 <= k < q :: buf[k] == old(buf[k])
  {
    FlatConcat([x % B32, x / B32], words);
    assert [x % B32, x / B32][1..] == [x / B32];
    assert Flat([x % B32, x / B32]) == LE32(x % B32) + LE32(x / B32);
    q := StoreBelow(buf, p, LE32(x % B32) + LE32(x / B32));
  }

  /** The header loop: frequencies 255 down to 0 below the cursor. */
  method StoreHeader(freqs: seq<dword>, buf: array<byte>, p: nat) returns (q: nat)
    requires |Header(freqs, 0)| <= p <= buf.Length
    modifies buf
    ensures q == p - |Header(freqs, 0)|
    ensures buf[q..] == Header(freqs, 0) + old(buf[p..])
    ensures forall k | 0 <= k < q :: buf[k] == old(buf[k])
  {
    hide EncodeFreq;
    ghost var above := buf[p..];
    q := p;
    var i := |freqs|;
    while i > 0
      invariant 0 <= i <= |freqs|
      invariant q == p - |Header(freqs, i)|
      invariant buf[q..] == Header(freqs, i) + above
      invariant forall k | 0 <= k < q :: buf[k] == old(buf[k])
    {
      ghost var e, h := EncodeFreq(freqs[i - 1]), Header(freqs, i);
      SuffixHeader(freqs, 0, i - 1);
      assert e + (h + above) == (e + h) + above;
      q := PutFreq(buf, q, freqs[i - 1]);
      i := i - 1;
    }
  }

  /** Table and frequencies of the data, computed in a statistics record. */
  method BuildTable(data: seq<byte>) returns (cum: seq<int>, freqs: seq<nat>)
    requires 0 < |data| < B32
    ensures cum == CumOf(data) && freqs == Widths(cum)
  {
    var ss := new SStats();
    ss.CountFreqs(data);
    CountIsHistogram(data);
    ss.NormalizeFreqs(PROB_SCALE);
    cum, freqs := ss.cumFreqs[..], ss.freqs[..];
  }

  /** Words of the data and both states: state 1 is flushed first, so state 0 is read first. */
  method StoreWords(data: seq<byte>, buf: array<byte>, end: nat, cum: seq<int>) returns (p: nat)
    requires Covers(cum, data)
    requires 4 * |Flushed(EncodeAll(data, cum))| <= end <= buf.Length
    modifies buf
    ensures p == end - 4 * |Flushed(EncodeAll(data, cum))|
    ensures buf[p..] == Flat(Flushed(EncodeAll(data, cum))) + old(buf[end..])
    ensures forall k | 0 <= k < p :: buf[k] == old(buf[k])
  {
    ghost var c := EncodeAll(data, cum);
    var esyms := InitSymbols(cum);
    var rans0, rans1;
    rans0, rans1, p := EncodeBytes(data, buf, end, esyms[..], cum);
    p := EncFlush(rans1, buf, p, c.words, old(buf[end..]));
    p := EncFlush(rans0, buf, p, [rans1 % B32, rans1 / B32] + c.words, old(buf[end..]));
    assert [rans0 % B32, rans0 / B32] + ([rans1 % B32, rans1 / B32] + c.words) == Flushed(c);
  }

  method StorePayload(data: seq<byte>, buf: array<byte>, end: nat) returns (p: nat)
    requires 0 < |data| < B32
    requires |Payload(data)| <= end <= buf.Length
    modifies buf
    ensures p == end - |Payload(data)|
    ensures buf[p..] == Payload(data) + old(buf[end..])
    ensures forall k | 0 <= k < p :: buf[k] == old(buf[k])
  {
    hide EncodeAll, Flat, Header, Flushed;
    var cum, freqs := BuildTable(data);
    WidthsFit(cum);
    ghost var words := Flat(Flushed(EncodeAll(data, cum)));
    p := StoreWords(data, buf, end, cum);
    p := StoreHeader(freqs, buf, p);
    assert Header(freqs, 0) + (words + old(buf[end..])) == Header(freqs, 0) + words + old(buf[end..]);
  }

  /** ranscompress: the compressed form ends at `outlen`; its start is returned. */
  method Ranscompress(data: seq<byte>, buf: array<byte>, outlen: nat) returns (start: nat, enlen: nat)
    requires 0 < |data| < L
    requires |Compress(data)| <= outlen <= buf.Length
    modifies buf
    ensures enlen == |Compress(data)| && start == outlen - enlen
    ensures buf[start..] == Compress(data) + old(buf[outlen..])
    ensures forall k | 0 <= k < start :: buf[k] == old(buf[k])
  {
    hide Payload, LE32;
    var p := StorePayload(data, buf, outlen);
    enlen := outlen - p + 8;
    var lengths := LE32(|data|) + LE32(enlen % B32);
    start := StoreBelow(buf, p, lengths);
    assert lengths + (Payload(data) + old(buf[outlen..])) == lengths + Payload(data) + old(buf[outlen..]);
  }
}
