/** The entropy decoder as it runs: cursors moving forwards over the section, output
    bytes written in place. */
module RansDecoder {
  import opened Words
  import opened Rans64
  import opened Normalize
  import opened Stats
  import opened Bytes
  import opened FreqHeader
  import opened RansCodec

  /** Read one frequency at cursor `p`; `ok` is false when the bytes run out. */
  method TakeFreq(b: seq<byte>, p: nat) returns (ok: bool, f: dword, q: nat)
    requires p <= |b|
    ensures p <= q <= |b|
    ensures DecodeFreq(b[p..]) == if ok then Some((f, b[q..])) else None
  {
    ok, f, q := false, 0, p;
    if p == |b| { return; }
    var n := b[p] % 4 + 1;
    if p + n > |b| { return; }
    ok, q := true, p + n;
    if n == 1 {
      f := b[p] / 4;
    } else if n == 2 {
      f := Get16(b[p..]) / 4;
    } else if n == 3 {
      var high: nat := b[p] / 4;
      f := high * 0x1_0000 + Get16(b[p + 1..]);
      assert b[p..][1..] == b[p + 1..];
    } else {
      f := Get32(b[p..]) / 4;
    }
    assert b[p..][n..] == b[q..];
  }

  function Prepend(fs: seq<nat>, r: Option<(seq<nat>, seq<byte>)>): Option<(seq<nat>, seq<byte>)> {
    if r.None? then None else Some((fs + r.value.0, r.value.1))
  }

  lemma ReadHeaderStep(fs: seq<nat>, b: seq<byte>, n: nat)
    requires n > 0
    ensures DecodeFreq(b).None? ==> Prepend(fs, ReadHeader(b, n)) == None
    ensures DecodeFreq(b).Some? ==>
      var (f, rest) := DecodeFreq(b).value;
      Prepend(fs, ReadHeader(b, n)) == Prepend(fs + [f], ReadHeader(rest, n - 1))
  {
    if DecodeFreq(b).Some? {
      var (f, rest) := DecodeFreq(b).value;
      var r := ReadHeader(rest, n - 1);
      if r.Some? {
        assert fs + ([f] + r.value.0) == (fs + [f]) + r.value.0;
      }
    }
  }

  lemma PrependNothing(r: Option<(seq<nat>, seq<byte>)>)
    ensures Prepend([], r) == r
  {
    if r.Some? {
      assert [] + r.value.0 == r.value.0;
    }
  }

  /** The header loop: 256 frequencies into the statistics record. */
  method ReadFreqs(b: seq<byte>, freqs: array<nat>) returns (ok: bool, p: nat)
    requires freqs.Length == SYMBOLS
    modifies freqs
    ensures p <= |b|
    ensures ReadHeader(b, SYMBOLS) == if ok then Some((freqs[..], b[p..])) else None
  {
    hide DecodeFreq, ReadHeader, Prepend;
    p, ok := 0, true;
    assert b[0..] == b && freqs[..0] == [];
    PrependNothing(ReadHeader(b, SYMBOLS));
    for i := 0 to SYMBOLS
      invariant p <= |b|
      invariant ReadHeader(b, SYMBOLS) == Prepend(freqs[..i], ReadHeader(b[p..], SYMBOLS - i))
    {
      ReadHeaderStep(freqs[..i], b[p..], SYMBOLS - i);
      var f;
      ok, f, p := TakeFreq(b, p);
      if !ok { return; }
      freqs[i] := f;
      assert freqs[..i + 1] == freqs[..i] + [f];
    }
    HeaderEnds(freqs[..SYMBOLS], b[p..]);
    assert freqs[..SYMBOLS] == freqs[..];
  }

  lemma HeaderEnds(fs: seq<nat>, b: seq<byte>)
    ensures Prepend(fs, ReadHeader(b, 0)) == Some((fs, b))
  {
    assert fs + [] == fs;
  }

  /** Slot to symbol: fill each symbol's range of slots. */
  method BuildSlots(cum: seq<int>) returns (cum2sym: array<byte>)
    requires Table(cum)
    ensures fresh(cum2sym) && cum2sym.Length == PROB_SCALE
    ensures forall i | 0 <= i < PROB_SCALE :: cum2sym[i] == SymbolFrom(cum, i, 0)
  {
    cum2sym := new byte[PROB_SCALE](_ => 0);
    for s := 0 to SYMBOLS
      invariant 0 <= cum[s] <= PROB_SCALE
      invariant forall i | 0 <= i < cum[s] :: cum2sym[i] == SymbolFrom(cum, i, 0)
    {
      FairMonotone(cum, s, s + 1);
      FairMonotone(cum, s + 1, SYMBOLS);
      for i := cum[s] to cum[s + 1]
        invariant forall k | 0 <= k < i :: cum2sym[k] == SymbolFrom(cum, k, 0)
      {
        SymbolFromFinds(cum, i, 0, s);
        cum2sym[i] := s;
      }
    }
  }

  lemma WordsStep(b: seq<byte>, p: nat)
    requires p + 4 <= |b|
    ensures WordsOf(b[p..]) == [Get32(b[p..])] + WordsOf(b[p + 4..])
  {
    assert b[p..][4..] == b[p + 4..];
  }

  /** The renormalisation loop of the decoder. */
  method DecRefill(x: nat, b: seq<byte>, p: nat) returns (ok: bool, z: nat, q: nat)
    requires p <= |b|
    ensures p <= q <= |b|
    ensures Refill(x, WordsOf(b[p..])) == if ok then Refilled(z, WordsOf(b[q..])) else OutOfWords
  {
    ok, z, q := true, x, p;
    while z < L
      invariant p <= q <= |b|
      invariant Refill(x, WordsOf(b[p..])) == Refill(z, WordsOf(b[q..]))
      decreases |b| - q
    {
      if q + 4 > |b| {
        ok := false;
        return;
      }
      WordsStep(b, q);
      z, q := z * B32 + Get32(b[q..]), q + 4;
    }
  }

  /** Rans64DecAdvance's renormalisation, for the odd last byte: at most one word. */
  method DecRefillOnce(x: nat, b: seq<byte>, p: nat) returns (ok: bool, z: nat, q: nat)
    requires p <= |b|
    ensures p <= q <= |b|
    ensures RefillOnce(x, WordsOf(b[p..])) == if ok then Refilled(z, WordsOf(b[q..])) else OutOfWords
  {
    ok, z, q := true, x, p;
    if z < L {
      if q + 4 > |b| {
        ok := false;
        return;
      }
      WordsStep(b, q);
      z, q := z * B32 + Get32(b[q..]), q + 4;
    }
  }

  function Extend(prefix: seq<byte>, r: Decoded): Decoded {
    match r
    case Starved => Starved
    case Decoded(data, x0, x1, words) => Decoded(prefix + data, x0, x1, words)
  }

  /** Two more bytes of the decoder's loop. */
  lemma DecodeTwoMore(prefix: seq<byte>, x0: nat, x1: nat, words: seq<dword>, n: nat, cum: seq<int>)
    requires Table(cum) && n >= 2
    ensures Extend(prefix, DecodeAll(x0, x1, words, n, cum))
         == match TakePair(x0, x1, words, cum)
            case NoPair => Starved
            case Pair(b0, b1, z0, z1, rest) => Extend(prefix + [b0, b1], DecodeAll(z0, z1, rest, n - 2, cum))
  {
    var t := TakePair(x0, x1, words, cum);
    if t.Pair? {
      var d := DecodeAll(t.z0, t.z1, t.words, n - 2, cum);
      if d.Decoded? {
        assert prefix + ([t.b0, t.b1] + d.data) == (prefix + [t.b0, t.b1]) + d.data;
      }
    }
  }

  /** The slot-to-symbol array agrees with the table. */
  ghost predicate SlotsOf(cum2sym: seq<byte>, cum: seq<int>) {
    && Table(cum) && |cum2sym| == PROB_SCALE
    && forall i | 0 <= i < PROB_SCALE :: cum2sym[i] == SymbolFrom(cum, i, 0)
  }

  /** One output byte and the state before refilling. */
  method DecTakeByte(x: nat, cum2sym: seq<byte>, cum: seq<int>) returns (b: byte, y: nat)
    requires SlotsOf(cum2sym, cum)
    ensures (b, y) == TakeByte(x, cum)
  {
    b := cum2sym[x % PROB_SCALE];
    ScaleIsPower();
    assert TakeByte(x, cum).1 >= 0;
    y := Width(cum, b) * (x / PROB_SCALE) + x % PROB_SCALE - cum[b];
  }

  /** Body of the decoding loop: both symbols are looked up before either state moves. */
  method DecTakePair(x0: nat, x1: nat, b: seq<byte>, p: nat, cum2sym: seq<byte>, cum: seq<int>)
    returns (ok: bool, b0: byte, b1: byte, z0: nat, z1: nat, q: nat)
    requires p <= |b| && SlotsOf(cum2sym, cum)
    ensures q <= |b|
    ensures TakePair(x0, x1, WordsOf(b[p..]), cum) == if ok then Pair(b0, b1, z0, z1, WordsOf(b[q..])) else NoPair
  {
    var y0, y1;
    z0, z1 := x0, x1;
    b0, y0 := DecTakeByte(x0, cum2sym, cum);
    b1, y1 := DecTakeByte(x1, cum2sym, cum);
    ok, z0, q := DecRefill(y0, b, p);
    if !ok { return; }
    ok, z1, q := DecRefill(y1, b, q);
  }

  /** The decoding loop over whole pairs; `i` is where it stops. */
  method DecodePairs(b: seq<byte>, p0: nat, s0: nat, s1: nat, n: nat, cum2sym: seq<byte>, cum: seq<int>, pout: array<byte>)
    returns (ok: bool, rans0: nat, rans1: nat, q: nat, i: nat)
    requires p0 <= |b| && n <= pout.Length && SlotsOf(cum2sym, cum)
    modifies pout
    ensures ok ==> q <= |b| && i <= n < i + 2
    ensures DecodeAll(s0, s1, WordsOf(b[p0..]), n, cum)
         == if ok then Extend(pout[..i], DecodeAll(rans0, rans1, WordsOf(b[q..]), n - i, cum)) else Starved
    ensures forall k | n <= k < pout.Length :: pout[k] == old(pout[k])
  {
    hide DecodeAll, TakePair, Extend, WordsOf, Table;
    ghost var goal := DecodeAll(s0, s1, WordsOf(b[p0..]), n, cum);
    ok, rans0, rans1, q, i := true, s0, s1, p0, 0;
    ExtendNothing(goal, pout[..0]);
    while i + 2 <= n
      invariant i <= n && q <= |b|
      invariant goal == Extend(pout[..i], DecodeAll(rans0, rans1, WordsOf(b[q..]), n - i, cum))
      invariant forall k | n <= k < pout.Length :: pout[k] == old(pout[k])
    {
      ghost var prefix := pout[..i];
      DecodeTwoMore(prefix, rans0, rans1, WordsOf(b[q..]), n - i, cum);
      var b0, b1;
      ok, b0, b1, rans0, rans1, q := DecTakePair(rans0, rans1, b, q, cum2sym, cum);
      pout[i], pout[i + 1] := b0, b1;
      if !ok { return; }
      assert pout[..i + 2] == prefix + [b0, b1];
      i := i + 2;
    }
  }

  /** All output bytes: the pairs, then the odd last byte from state 0. */
  method DecodeBytes(b: seq<byte>, p0: nat, s0: nat, s1: nat, n: nat, cum: seq<int>, pout: array<byte>)
    returns (ok: bool, ghost x0: nat, ghost x1: nat, ghost p: nat)
    requires Table(cum) && p0 <= |b| && n <= pout.Length
    modifies pout
    ensures ok ==> p <= |b|
    ensures DecodeAll(s0, s1, WordsOf(b[p0..]), n, cum)
         == if ok then Decoded(pout[..n], x0, x1, WordsOf(b[p..])) else Starved
    ensures forall k | n <= k < pout.Length :: pout[k] == old(pout[k])
  {
    var slots := BuildSlots(cum);
    var cum2sym := slots[..];
    var rans0, rans1, q, i;
    ok, rans0, rans1, q, i := DecodePairs(b, p0, s0, s1, n, cum2sym, cum, pout);
    x0, x1, p := rans0, rans1, q;
    if !ok { return; }
    ghost var prefix := pout[..i];
    if i < n {
      var b0, y0 := DecTakeByte(rans0, cum2sym, cum);
      pout[n - 1] := b0;
      assert pout[..n] == prefix + [b0];
      ok, rans0, q := DecRefillOnce(y0, b, q);
      x0, p := rans0, q;
    } else {
      assert prefix + [] == pout[..n];
    }
  }

  lemma ExtendNothing(r: Decoded, nothing: seq<byte>)
    requires nothing == []
    ensures Extend(nothing, r) == r
  {
    if r.Decoded? {
      assert [] + r.data == r.data;
    }
  }

  /** What the program returns: the length, its rejection code, or no defined result. */
  datatype Status = Done(len: nat) | Rejected | OutOfRange

  ghost predicate Reports(status: Status, o: Outcome, pout: seq<byte>) {
    match o
    case Ok(data) => status == Done(|data|) && |data| <= |pout| && pout[..|data|] == data
    case TooLong => status == Rejected
    case Undefined => status == OutOfRange
  }

  method UncompressBody(b: seq<byte>, n: nat, cum: seq<int>, pout: array<byte>) returns (status: Status)
    requires Table(cum) && n <= pout.Length
    modifies pout
    ensures Reports(status, DecodeBody(b, n, cum), pout[..])
    ensures forall k | n <= k < pout.Length :: pout[k] == old(pout[k])
  {
    if |b| < 16 { return OutOfRange; }
    var w0, w1, w2, w3 := Get32(b), Get32(b[4..]), Get32(b[8..]), Get32(b[12..]);
    FourWords(b);
    hide DecodeAll, WordsOf;
    var ok, _, _, _ := DecodeBytes(b, 16, Join(w0, w1), Join(w2, w3), n, cum, pout);
    if !ok { return OutOfRange; }
    assert pout[..][..n] == pout[..n];
    return Done(n);
  }

  lemma FourWords(b: seq<byte>)
    requires |b| >= 16
    ensures var w := WordsOf(b);
            w[0] == Get32(b) && w[1] == Get32(b[4..]) && w[2] == Get32(b[8..]) && w[3] == Get32(b[12..])
            && w[4..] == WordsOf(b[16..])
  {
    hide Get32, WordsOf;
    assert b[0..] == b;
    WordsStep(b, 0);
    WordsStep(b, 4);
    WordsStep(b, 8);
    WordsStep(b, 12);
    FourFronts(Get32(b), Get32(b[4..]), Get32(b[8..]), Get32(b[12..]), WordsOf(b[16..]));
  }

  lemma FourFronts(a: dword, b: dword, c: dword, d: dword, r: seq<dword>)
    ensures var w := [a] + ([b] + ([c] + ([d] + r)));
            |w| >= 4 && w[0] == a && w[1] == b && w[2] == c && w[3] == d && w[4..] == r
  {
  }

  method UncompressPayload(b: seq<byte>, n: nat, pout: array<byte>) returns (status: Status)
    requires n <= pout.Length
    modifies pout
    ensures Reports(status, DecodePayload(b, n), pout[..])
    ensures forall k | n <= k < pout.Length :: pout[k] == old(pout[k])
  {
    var ss := new SStats();
    var ok, p := ReadFreqs(b, ss.freqs);
    if !ok { return OutOfRange; }
    ghost var freqs := ss.freqs[..];
    ss.CalcCumFreqs();
    var total := ss.cumFreqs[SYMBOLS];
    if total <= 0 || total >= B32 { return OutOfRange; }
    ss.NormalizeFreqs(PROB_SCALE);
    var cum := ss.cumFreqs[..];
    NormaliseIsSlotTable(freqs, PROB_SCALE);
    status := UncompressBody(b[p..], n, cum, pout);
  }

  /** ransuncompress: for every byte string, exactly what `Uncompress` says. */
  method Ransuncompress(b: seq<byte>, pout: array<byte>) returns (status: Status)
    modifies pout
    ensures Reports(status, Uncompress(b, pout.Length), pout[..])
  {
    if |b| < 8 { return OutOfRange; }
    var rawlen := Get32(b);
    if rawlen >= L { return OutOfRange; }
    if rawlen > pout.Length { return Rejected; }
    status := UncompressPayload(b[8..], rawlen, pout);
  }
}
