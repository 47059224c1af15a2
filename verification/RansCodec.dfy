/** The interleaved two-state entropy coder: its meaning on byte strings, and the proof
    that decoding undoes encoding. */
module RansCodec {
  import opened Arith
  import opened Words
  import opened Rans64
  import opened Normalize
  import opened Stats
  import opened Bytes
  import opened FreqHeader

  const PROB_BITS := 14
  const PROB_SCALE := 0x4000

  lemma ScaleIsPower()
    ensures Pow2(PROB_BITS) == PROB_SCALE
  {
    Pow2Values();
  }

  /** Slots in order over `[0, 2^14)`. */
  ghost predicate Table(cum: seq<int>) {
    && |cum| == SYMBOLS + 1
    && cum[0] == 0 && cum[SYMBOLS] == PROB_SCALE
    && forall k | 0 <= k < SYMBOLS :: 0 <= Width(cum, k)
  }

  /** Every byte of `data` has a slot. */
  ghost predicate Covers(cum: seq<int>, data: seq<byte>) {
    Table(cum) && forall i | 0 <= i < |data| :: Width(cum, data[i]) > 0
  }

  lemma SlotOfByte(cum: seq<int>, b: byte)
    requires Table(cum) && Width(cum, b) > 0
    ensures 0 <= cum[b]
    ensures Slot(cum[b], Width(cum, b), PROB_BITS)
  {
    ScaleIsPower();
    FairMonotone(cum, 0, b);
    FairMonotone(cum, b + 1, SYMBOLS);
  }

  // ------------------------------------------------------------------ encoding

  /** Both states and the words pushed so far, last pushed first. */
  datatype Coder = Coder(x0: State, x1: State, words: seq<dword>)

  /** One encoder step for byte `b`. */
  function PutByte(x: State, cum: seq<int>, b: byte): (r: (State, seq<dword>))
    requires Table(cum) && Width(cum, b) > 0
    ensures |r.1| <= 1
  {
    SlotOfByte(cum, b);
    EncStepInvariant(x, cum[b], Width(cum, b), PROB_BITS);
    EncStep(x, cum[b], Width(cum, b), PROB_BITS)
  }

  /** Encode from the back: even positions on state 0, odd positions on state 1. */
  function EncodeAll(data: seq<byte>, cum: seq<int>): Coder
    requires Covers(cum, data)
  {
    if data == [] then Coder(L, L, [])
    else if |data| == 1 then
      var (z0, out0) := PutByte(L, cum, data[0]);
      Coder(z0, L, out0)
    else
      PutPair(EncodeAll(data[2..], cum), cum, data[0], data[1])
  }

  /** Two bytes: the later one first, on state 1, then the earlier one on state 0. */
  function PutPair(c: Coder, cum: seq<int>, b0: byte, b1: byte): Coder
    requires Table(cum) && Width(cum, b0) > 0 && Width(cum, b1) > 0
  {
    var (z1, out1) := PutByte(c.x1, cum, b1);
    var (z0, out0) := PutByte(c.x0, cum, b0);
    Coder(z0, z1, out0 + (out1 + c.words))
  }

  /** Both states, low halves first, then the words. */
  function Flushed(c: Coder): seq<dword> {
    [c.x0 % B32, c.x0 / B32, c.x1 % B32, c.x1 / B32] + c.words
  }

  function NonEmptyTotals(data: seq<byte>): (freqs: seq<nat>)
    requires 0 < |data|
    ensures |freqs| == SYMBOLS && Total(freqs) == |data|
  {
    CountIsHistogram(data);
    Count(data)
  }

  function CumOf(data: seq<byte>): (cum: seq<int>)
    requires 0 < |data| < B32
    ensures Covers(cum, data)
  {
    var freqs := NonEmptyTotals(data);
    CountIsHistogram(data);
    NormaliseIsSlotTable(freqs, PROB_SCALE);
    var cum := NormalCum(freqs, PROB_SCALE);
    assert forall i | 0 <= i < |data| :: data[i] in data;
    cum
  }

  /** A width never exceeds the scale, so the header can carry it. */
  lemma WidthsFit(cum: seq<int>)
    requires Table(cum)
    ensures forall k | 0 <= k < SYMBOLS :: Widths(cum)[k] <= PROB_SCALE
  {
    forall k | 0 <= k < SYMBOLS
      ensures Widths(cum)[k] <= PROB_SCALE
    {
      FairMonotone(cum, 0, k);
      FairMonotone(cum, k + 1, SYMBOLS);
    }
  }

  /** Frequencies, states and words: everything behind the two length fields. */
  function Payload(data: seq<byte>): seq<byte>
    requires 0 < |data| < B32
  {
    var cum := CumOf(data);
    WidthsFit(cum);
    Header(Widths(cum), 0) + Flat(Flushed(EncodeAll(data, cum)))
  }

  /** The compressed form of a non-empty byte string. */
  function Compress(data: seq<byte>): seq<byte>
    requires 0 < |data| < B32
  {
    LE32(|data|) + LE32((|Payload(data)| + 8) % B32) + Payload(data)
  }

  // ------------------------------------------------------------------ decoding

  /** The symbol whose slots contain `slot`. */
  function SymbolFrom(cum: seq<int>, slot: int, s: nat): (r: byte)
    requires |cum| == SYMBOLS + 1 && s < SYMBOLS
    decreases SYMBOLS - s, cum
  {
    if s == SYMBOLS - 1 || slot < cum[s + 1] then s else SymbolFrom(cum, slot, s + 1)
  }

  lemma {:induction false} SymbolFromFinds(cum: seq<int>, slot: int, s: nat, b: nat)
    requires Table(cum) && s <= b < SYMBOLS
    requires cum[b] <= slot < cum[b + 1]
    ensures SymbolFrom(cum, slot, s) == b
    decreases b - s
  {
    if s == b {
    } else {
      FairMonotone(cum, s + 1, b);
      SymbolFromFinds(cum, slot, s + 1, b);
    }
  }

  lemma {:induction false} SymbolFromContains(cum: seq<int>, slot: int, s: nat)
    requires Table(cum) && s < SYMBOLS
    requires cum[s] <= slot < PROB_SCALE
    ensures var b := SymbolFrom(cum, slot, s); cum[b] <= slot < cum[b + 1]
    decreases SYMBOLS - s
  {
    if s == SYMBOLS - 1 || slot < cum[s + 1] {
    } else {
      SymbolFromContains(cum, slot, s + 1);
    }
  }

  /** One decoder step: the byte, and the state before the words are shifted in. */
  function TakeByte(x: nat, cum: seq<int>): (r: (byte, nat))
    requires Table(cum)
    ensures r.1 <= x
  {
    var slot := x % PROB_SCALE;
    var b := SymbolFrom(cum, slot, 0);
    SymbolFromContains(cum, slot, 0);
    SlotOfByte(cum, b);
    ScaleIsPower();
    GetBound(x, cum[b], Width(cum, b));
    (b, Get(x, cum[b], Width(cum, b), PROB_BITS))
  }

  lemma GetBound(x: nat, start: nat, freq: nat)
    requires freq <= PROB_SCALE
    requires start <= x % PROB_SCALE
    ensures 0 <= Get(x, start, freq, PROB_BITS) <= x
  {
    ScaleIsPower();
    MulMonotone(freq, PROB_SCALE, x / PROB_SCALE);
    assert freq * (x / PROB_SCALE) >= 0;
  }

  /** What the decoder has when it stops: the bytes, both states, the unread words. */
  datatype Decoded = Decoded(data: seq<byte>, x0: nat, x1: nat, words: seq<dword>) | Starved

  /** The refill of the last, odd byte: at most one word. */
  function RefillOnce(x: nat, words: seq<dword>): Refilled {
    if x >= L then Refilled(x, words)
    else if words == [] then OutOfWords
    else Refilled(x * B32 + words[0], words[1..])
  }

  /** Where a pair of bytes leads: the bytes, both states, the words left. */
  datatype Pair = Pair(b0: byte, b1: byte, z0: nat, z1: nat, words: seq<dword>) | NoPair

  /** Body of the decoding loop: both symbols are looked up before either state moves. */
  function TakePair(x0: nat, x1: nat, words: seq<dword>, cum: seq<int>): Pair
    requires Table(cum)
  {
    var (b0, y0) := TakeByte(x0, cum);
    var (b1, y1) := TakeByte(x1, cum);
    match Refill(y0, words)
    case OutOfWords => NoPair
    case Refilled(z0, rest0) =>
      match Refill(y1, rest0)
      case OutOfWords => NoPair
      case Refilled(z1, rest1) => Pair(b0, b1, z0, z1, rest1)
  }

  function DecodeAll(x0: nat, x1: nat, words: seq<dword>, n: nat, cum: seq<int>): (r: Decoded)
    requires Table(cum)
    ensures r.Decoded? ==> |r.data| == n
    decreases n
  {
    if n == 0 then Decoded([], x0, x1, words)
    else if n == 1 then
      var (b0, y0) := TakeByte(x0, cum);
      match RefillOnce(y0, words)
      case OutOfWords => Starved
      case Refilled(z0, rest) => Decoded([b0], z0, x1, rest)
    else
      match TakePair(x0, x1, words, cum)
      case NoPair => Starved
      case Pair(b0, b1, z0, z1, rest) =>
        match DecodeAll(z0, z1, rest, n - 2, cum)
        case Starved => Starved
        case Decoded(data, e0, e1, unread) => Decoded([b0, b1] + data, e0, e1, unread)
  }

  /** Outcome of decoding a compressed section. `Undefined` stands for the inputs on
      which the program divides by zero, wraps its totals or reads past the section. */
  datatype Outcome = Ok(data: seq<byte>) | TooLong | Undefined

  /** Rans64DecInit: a state from two words, low half first. */
  function Join(lo: dword, hi: nat): nat {
    lo + B32 * hi
  }

  /** Decode `n` bytes from the states and words in `b` under a given table. */
  function DecodeBody(b: seq<byte>, n: nat, cum: seq<int>): Outcome
    requires Table(cum)
  {
    var w := WordsOf(b);
    if |w| < 4 then Undefined
    else
      match DecodeAll(Join(w[0], w[1]), Join(w[2], w[3]), w[4..], n, cum)
      case Starved => Undefined
      case Decoded(data, _, _, _) => Ok(data)
  }

  function DecodePayload(b: seq<byte>, n: nat): Outcome {
    match ReadHeader(b, SYMBOLS)
    case None => Undefined
    case Some((freqs, rest)) =>
      if !(0 < Total(freqs) < B32) then Undefined
      else
        NormaliseIsSlotTable(freqs, PROB_SCALE);
        DecodeBody(rest, n, NormalCum(freqs, PROB_SCALE))
  }

  function Uncompress(b: seq<byte>, outlen: nat): Outcome {
    if |b| < 8 then Undefined
    else
      var rawlen := Get32(b);
      if rawlen >= L then Undefined
      else if rawlen > outlen then TooLong
      else DecodePayload(b[8..], rawlen)
  }

  // ---------------------------------------------------------------- round trip

  /** A decoder step undoes the encoder step of the same byte. */
  lemma ByteRoundTrip(x: State, cum: seq<int>, b: byte, words: seq<dword>)
    requires Table(cum) && Width(cum, b) > 0
    ensures var (z, out) := PutByte(x, cum, b);
            && TakeByte(z, cum).0 == b
            && (TakeByte(z, cum).1 < L <==> out != [])
            && Refill(TakeByte(z, cum).1, out + words) == Refilled(x, words)
            && RefillOnce(TakeByte(z, cum).1, out + words) == Refilled(x, words)
  {
    ScaleIsPower();
    SlotOfByte(cum, b);
    var (z, out) := PutByte(x, cum, b);
    StepRoundTrip(x, cum[b], Width(cum, b), PROB_BITS, words);
    SymbolFromFinds(cum, z % PROB_SCALE, 0, b);
    PutThenGet(Renorm(x, Width(cum, b), PROB_BITS).0, cum[b], Width(cum, b), PROB_BITS);
    RefillUndoesRenorm(x, Width(cum, b), PROB_BITS, words);
    RenormRange(x, Width(cum, b), PROB_BITS);
    if out != [] {
      assert (out + words)[1..] == words;
    } else {
      assert out + words == words;
    }
  }

  /** Two interleaved encoder steps are undone by two decoder steps, although they push
      onto one word stack in the opposite order. */
  lemma PairRoundTrip(d: Coder, cum: seq<int>, b0: byte, b1: byte, after: seq<dword>)
    requires Table(cum) && Width(cum, b0) > 0 && Width(cum, b1) > 0
    ensures var c := PutPair(d, cum, b0, b1);
            TakePair(c.x0, c.x1, c.words + after, cum) == Pair(b0, b1, d.x0, d.x1, d.words + after)
  {
    var out1, out0 := PutByte(d.x1, cum, b1).1, PutByte(d.x0, cum, b0).1;
    assert out0 + (out1 + d.words) + after == out0 + (out1 + d.words + after);
    assert out1 + d.words + after == out1 + (d.words + after);
    ByteRoundTrip(d.x0, cum, b0, out1 + d.words + after);
    ByteRoundTrip(d.x1, cum, b1, d.words + after);
  }

  /** The decoder run on the encoder's final states returns the bytes in order, reads
      exactly the words that were pushed, and ends with both states at their start. */
  lemma {:induction false} DecodeUndoesEncode(data: seq<byte>, cum: seq<int>, after: seq<dword>)
    requires Covers(cum, data)
    ensures var c := EncodeAll(data, cum);
            DecodeAll(c.x0, c.x1, c.words + after, |data|, cum) == Decoded(data, L, L, after)
  {
    hide TakePair, PutPair, PutByte, TakeByte, RefillOnce;
    var c := EncodeAll(data, cum);
    if data == [] {
      assert c.words + after == after;
    } else if |data| == 1 {
      ByteRoundTrip(L, cum, data[0], after);
      assert [data[0]] == data;
    } else {
      PairRoundTrip(EncodeAll(data[2..], cum), cum, data[0], data[1], after);
      DecodeUndoesEncode(data[2..], cum, after);
      assert [data[0], data[1]] + data[2..] == data;
    }
  }

  /** The round trip: decompressing a compressed string returns it, whatever bytes
      follow, provided the output buffer is large enough. */
  lemma RansRoundTrip(data: seq<byte>, after: seq<byte>, outlen: nat)
    requires 0 < |data| < L && |data| <= outlen
    ensures Uncompress(Compress(data) + after, outlen) == Ok(data)
  {
    hide Payload, LE32, DecodePayload;
    var b := Compress(data) + after;
    var mid := LE32((|Payload(data)| + 8) % B32) + Payload(data) + after;
    assert b == LE32(|data|) + mid;
    Get32Prefix(|data|, mid);
    assert b[8..] == Payload(data) + after;
    PayloadRoundTrip(data, after);
  }

  lemma PayloadRoundTrip(data: seq<byte>, after: seq<byte>)
    requires 0 < |data| < L
    ensures DecodePayload(Payload(data) + after, |data|) == Ok(data)
  {
    var cum := CumOf(data);
    var rest := Flat(Flushed(EncodeAll(data, cum))) + after;
    WidthsFit(cum);
    assert Payload(data) + after == Header(Widths(cum), 0) + rest;
    TableIsRecovered(data);
    HeaderThenBody(cum, rest, |data|);
    BodyRoundTrip(data, cum, after);
  }

  lemma HeaderThenBody(cum: seq<int>, rest: seq<byte>, n: nat)
    requires Table(cum) && forall k | 0 <= k < SYMBOLS :: Widths(cum)[k] <= PROB_SCALE
    requires Total(Widths(cum)) == PROB_SCALE && NormalCum(Widths(cum), PROB_SCALE) == cum
    ensures DecodePayload(Header(Widths(cum), 0) + rest, n) == DecodeBody(rest, n, cum)
  {
    hide DecodeBody, Header, ReadHeader, NormalCum, Widths;
    HeaderRoundTrip(Widths(cum), 0, rest);
    assert Widths(cum)[0..] == Widths(cum);
  }

  /** The decoder normalises the transmitted frequencies and gets the encoder's table. */
  lemma TableIsRecovered(data: seq<byte>)
    requires 0 < |data| < B32
    ensures Total(Widths(CumOf(data))) == PROB_SCALE
    ensures NormalCum(Widths(CumOf(data)), PROB_SCALE) == CumOf(data)
  {
    CountIsHistogram(data);
    NormaliseIsSlotTable(Count(data), PROB_SCALE);
    NormaliseIsIdempotent(CumOf(data), Count(data), PROB_SCALE);
  }

  lemma FlushRoundTrip(c: Coder, after: seq<byte>)
    ensures var w := WordsOf(Flat(Flushed(c)) + after);
            && |w| >= 4
            && Join(w[0], w[1]) == c.x0 && Join(w[2], w[3]) == c.x1
            && w[4..] == c.words + WordsOf(after)
  {
    WordsOfFlat(Flushed(c), after);
    assert (Flushed(c) + WordsOf(after))[4..] == c.words + WordsOf(after);
  }

  /** The part of the payload behind the header. */
  lemma BodyRoundTrip(data: seq<byte>, cum: seq<int>, after: seq<byte>)
    requires Covers(cum, data)
    ensures DecodeBody(Flat(Flushed(EncodeAll(data, cum))) + after, |data|, cum) == Ok(data)
  {
    FlushRoundTrip(EncodeAll(data, cum), after);
    DecodeUndoesEncode(data, cum, WordsOf(after));
  }

  // --------------------------------------------------------------- size bound

  /** One state pushes at most one word every two steps: after a push it is below
      2^45, and only a state of at least 2^49 pushes. */
  function Charge(x: nat): nat {
    if x >= 0x2000_0000_0000 then 1 else 0
  }

  lemma ChargeStep(x: State, cum: seq<int>, b: byte)
    requires Table(cum) && Width(cum, b) > 0
    ensures var (z, out) := PutByte(x, cum, b);
            2 * |out| + Charge(z) <= 1 + Charge(x)
  {
    ScaleIsPower();
    SlotOfByte(cum, b);
    var f := Width(cum, b);
    RenormRange(x, f, PROB_BITS);
    var (y, out) := Renorm(x, f, PROB_BITS);
    if out != [] {
      XMaxIsPower(f, PROB_BITS);
      PowerOf49();
      MulMonotone(1, f, Pow2(63 - PROB_BITS));
      assert Charge(x) == 1;
      SmallPut(y, cum[b], f);
    }
  }

  lemma PowerOf49()
    ensures Pow2(63 - PROB_BITS) == 0x2_0000_0000_0000
  {
    Pow2Values();
    Pow2Add(49, 14);
  }

  lemma SmallPut(y: nat, start: nat, freq: nat)
    requires y < L && Slot(start, freq, PROB_BITS)
    ensures Put(y, start, freq, PROB_BITS) < 0x2000_0000_0000
  {
    ScaleIsPower();
    assert L * freq >= L by { MulMonotone(1, freq, L); assert 1 * L == L; assert freq * L == L * freq; }
    DivBetween(y, freq, 0, L);
  }

  lemma {:induction false} WordBound(data: seq<byte>, cum: seq<int>)
    requires Covers(cum, data)
    ensures var c := EncodeAll(data, cum);
            2 * |c.words| + Charge(c.x0) + Charge(c.x1) <= |data|
  {
    if data == [] {
    } else if |data| == 1 {
      ChargeStep(L, cum, data[0]);
    } else {
      var d := EncodeAll(data[2..], cum);
      WordBound(data[2..], cum);
      ChargeStep(d.x1, cum, data[1]);
      ChargeStep(d.x0, cum, data[0]);
    }
  }

  /** Only a width of the whole scale needs three header bytes, and then no other
      symbol has any width at all. */
  lemma {:induction false} HeaderBound(cum: seq<int>, i: nat)
    requires Table(cum) && i <= SYMBOLS
    requires forall k | 0 <= k < SYMBOLS :: Widths(cum)[k] < B32
    ensures |Header(Widths(cum), i)| <= 2 * (SYMBOLS - i) + (if cum[i] == 0 && i == SYMBOLS - 1 then 1 else 0)
    ensures cum[i] == PROB_SCALE ==> |Header(Widths(cum), i)| <= SYMBOLS - i
    decreases SYMBOLS - i
  {
    if i == SYMBOLS {
    } else {
      HeaderBound(cum, i + 1);
      FairMonotone(cum, 0, i);
      FairMonotone(cum, i, i + 1);
      FairMonotone(cum, i + 1, SYMBOLS);
    }
  }

  /** How much room a compressed section can need. */
  lemma CompressBound(data: seq<byte>)
    requires 0 < |data| < L
    ensures |Compress(data)| <= 2 * |data| + 536
  {
    var cum := CumOf(data);
    WidthsFit(cum);
    HeaderBound(cum, 0);
    WordBound(data, cum);
  }
}
