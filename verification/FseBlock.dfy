/** The match payload of an LZFSE block with the program's three coders, and a whole block:
    frequency tables, literals and matches from header and payloads. */
module FseBlock {
  import opened Arith
  import opened Words
  import opened FseTables
  import opened FseStream
  import opened FseLiterals
  import opened FseMatches
  import opened FseMatchCoder
  import FseFreqTable

  // ------------------------------------------------------------ the program's coders

  const L_STATES := 64
  const M_STATES := 64
  const D_STATES := 256
  const LITERAL_STATES := 1024

  const L_SYMBOLS := 20
  const M_SYMBOLS := 20
  const D_SYMBOLS := 64
  const LITERAL_SYMBOLS := 256

  function LiteralLengthRanges(): Ranges {
    Ranges(Flattened(L_EXTRA), Flattened(L_BASE))
  }

  function MatchLengthRanges(): Ranges {
    Ranges(Flattened(M_EXTRA), Flattened(M_BASE))
  }

  /** The encoder tables and frequencies of a block, for literal lengths, match lengths and
      distances. */
  datatype Tables = Tables(tl: seq<EncEntry>, fl: seq<nat>, tm: seq<EncEntry>, fm: seq<nat>, td: seq<EncEntry>, fd: seq<nat>)
  {
    ghost predicate Valid() {
      && |fl| == L_SYMBOLS && |fm| == M_SYMBOLS && |fd| == D_SYMBOLS
      && Coder(tl, L_STATES, fl) && Coder(tm, M_STATES, fm) && Coder(td, D_STATES, fd)
    }

    function Coders(): Coders {
      FseMatches.Coders(ValueCoder(tl, L_STATES, fl, LiteralLengthRanges(), 14),
                        ValueCoder(tm, M_STATES, fm, MatchLengthRanges(), 17),
                        ValueCoder(td, D_STATES, fd, DistanceRanges(), 23))
    }
  }

  /** The widths the program's comments give are right, so a triple always fits a refill. */
  lemma ProgramCodersValid(T: Tables)
    requires T.Valid()
    ensures T.Coders().Valid()
  {
    hide Coder, Flattened, Log;
    DistanceRangesContiguous();
    LengthRangesContiguous();
    TripleWidths();
  }

  function LiteralLengthSymbol(v: nat): (s: nat)
    requires v < 316
    ensures s < L_SYMBOLS
  {
    LengthRangesContiguous();
    SymbolFrom(LiteralLengthRanges().base, v, 0)
  }

  function MatchLengthSymbol(v: nat): (s: nat)
    requires v < 2360
    ensures s < M_SYMBOLS
  {
    LengthRangesContiguous();
    SymbolFrom(MatchLengthRanges().base, v, 0)
  }

  function DistanceSymbol(v: nat): (s: nat)
    requires v < 262140
    ensures s < D_SYMBOLS
  {
    DistanceRangesContiguous();
    SymbolFrom(DistanceRanges().base, v, 0)
  }

  /** The coders know exactly the triples whose values lie below the program's limits and
      whose symbols occur. */
  lemma KnownExactly(T: Tables, t: Triple)
    requires T.Valid()
    ensures T.Coders().Valid()
    ensures T.Coders().Knows(t)
       <==> && t.l < 316 && t.m < 2360 && t.d < 262140
            && T.fl[LiteralLengthSymbol(t.l)] > 0 && T.fm[MatchLengthSymbol(t.m)] > 0 && T.fd[DistanceSymbol(t.d)] > 0
  {
    hide Coder, Flattened, Log, SymbolFrom;
    ProgramCodersValid(T);
    DistanceRangesContiguous();
    LengthRangesContiguous();
  }

  // ------------------------------------------------------------------ match payload

  /** What the block header records of a match payload. */
  datatype MatchPayload = MatchPayload(end: nat, bits: int, l: nat, m: nat, d: nat)

  /** `p` describes the payload of `ts` that `buf` holds from `at` on. */
  ghost predicate DescribesMatches(p: MatchPayload, c: Coders, ts: seq<Triple>, buf: seq<byte>, at: nat)
    requires c.Valid() && c.KnowsAll(ts)
  {
    && at <= p.end <= |buf| && -7 <= p.bits <= 0 <= 8 * p.end + p.bits
    && (BeginLanesGood(c, buf[..at]);
        PutTriples(c, ts, BeginLanes(buf[..at]))
          == Lanes(p.l, p.m, p.d, Bits(Value(buf[..p.end]), 8 * p.end + p.bits)))
  }

  /** Decoding a match payload: the end of `buf[..p.end]` first, nothing in front of `start`. */
  ghost function DecodeMatches(c: Coders, buf: seq<byte>, start: nat, p: MatchPayload, count: nat): Option<seq<Triple>>
    requires c.Valid() && p.end <= |buf|
  {
    if !(-8 <= p.bits <= 0 && p.end >= start + (if p.bits == 0 then 7 else 8)
         && Value(buf[..p.end]) < Pow2(8 * p.end + p.bits)) then None
    else
      match TakeTriples(c, start, Lanes(p.l, p.m, p.d, Bits(Value(buf[..p.end]), 8 * p.end + p.bits)), count)
      case None => None
      case Some((ts, _)) => Some(ts)
  }

  /** The match round trip: seven bytes in front of the payload are enough. */
  lemma MatchesRoundTrip(p: MatchPayload, c: Coders, ts: seq<Triple>, buf: seq<byte>, at: nat, start: nat)
    requires c.Valid() && c.KnowsAll(ts) && DescribesMatches(p, c, ts, buf, at) && at >= start + 7
    ensures DecodeMatches(c, buf, start, p, |ts|) == Some(ts)
  {
    hide PutTriples, TakeTriples, Coders.Valid, Coders.KnowsAll, Pow2, Value;
    BeginLanesGood(c, buf[..at]);
    TriplesRoundTrip(c, ts, BeginLanes(buf[..at]), start);
  }

  /** The match part of lzfse_encode_matches: eight zero bytes, the loop, and the finish. */
  method EncodeMatches(c: Coders, dst: array<byte>, at: nat, ts: seq<Triple>) returns (p: Option<MatchPayload>)
    requires c.Valid() && c.KnowsAll(ts) && at <= dst.Length
    requires ts == [] ==> at + 16 <= dst.Length
    modifies dst
    ensures dst[..at] == old(dst[..at])
    ensures p == None <==> at + 8 > dst.Length || TriplesFull(c, ts, old(dst[..at]) + Padding(), dst.Length)
    ensures p.Some? ==> at + 8 <= dst.Length && dst[at..at + 8] == Padding()
                        && DescribesMatches(p.value, c, ts, dst[..], at + 8)
  {
    hide PutTriples, TriplesFull, Coders.Valid, Coders.KnowsAll, Held, Value, Pow2, Padding;
    if at + 8 > dst.Length { return None; }
    ghost var front := dst[..at];
    StorePadding(dst, at);
    ghost var before := dst[..at + 8];
    BeginLanesGood(c, before);
    var out := new OutStream(dst, at + 8);
    var ok, l, m, d := EncodeTriples(out, c, ts);
    PaddingStays(dst[..], before, front, at);
    if !ok { return None; }
    ghost var all := dst[..out.pos];
    assert all[..at + 8] == before;
    out.Finish();
    assert dst[..at + 8] == all[..at + 8];
    PaddingStays(dst[..], before, front, at);
    p := Some(MatchPayload(out.pos, out.nbits, l, m, d));
  }

  lemma PaddingStays(m: seq<byte>, before: seq<byte>, front: seq<byte>, at: nat)
    requires |front| == at && before == front + Padding() && |m| >= at + 8 && m[..at + 8] == before
    ensures m[..at] == front && m[at..at + 8] == Padding()
  {
    assert m[..at] == m[..at + 8][..at] && m[at..at + 8] == m[..at + 8][at..];
  }

  function Padding(): (b: seq<byte>)
    ensures |b| == 8
  {
    [0, 0, 0, 0, 0, 0, 0, 0]
  }

  method StorePadding(dst: array<byte>, at: nat)
    requires at + 8 <= dst.Length
    modifies dst
    ensures dst[..at] == old(dst[..at]) && dst[at..at + 8] == Padding()
    ensures dst[..at + 8] == old(dst[..at]) + Padding()
  {
    forall k | 0 <= k < 8 { dst[at + k] := 0; }
    assert dst[..at + 8] == old(dst[..at]) + Padding();
  }

  /** The match part of lzfse_decode, as far as the triples: it reads the payload that ends
      at `p.end`, for every content of the buffer and every recorded length and state. */
  method DecodeMatchPayload(c: Coders, tl: seq<DecEntry>, tm: seq<DecEntry>, td: seq<DecEntry>, buf: seq<byte>, start: nat,
                            p: MatchPayload, count: nat)
    returns (ok: bool, ts: seq<Triple>)
    requires c.Valid() && start <= p.end <= |buf| && p.l < c.l.n && p.m < c.m.n && p.d < c.d.n
    requires tl == DecTable(c.l.n, c.l.freq) && tm == DecTable(c.m.n, c.m.freq) && td == DecTable(c.d.n, c.d.freq)
    ensures DecodeMatches(c, buf, start, p, count) == if ok then Some(ts) else None
  {
    hide TakeTriples, DecTable, ValueCoder.Valid, Held, Value, Pow2;
    ts := [];
    var input := new InStream(buf, start, p.end);
    ok := input.Init(p.bits);
    if !ok { return; }
    ok, ts := DecodeTriples(input, c, tl, tm, td, p.l, p.m, p.d, count);
  }

  // -------------------------------------------------------------------- whole block

  /** The four frequency tables in the order of the header. */
  function Frequencies(T: Tables, flit: seq<nat>): seq<nat> {
    T.fl + T.fm + T.fd + flit
  }

  /** The tables of a block with the frequencies a header yields. */
  function FromHeader(T: Tables, f: seq<nat>): Tables
    requires |f| == L_SYMBOLS + M_SYMBOLS + D_SYMBOLS + LITERAL_SYMBOLS
  {
    T.(fl := f[..20], fm := f[20..40], fd := f[40..104])
  }

  /** What an encoded block consists of: the bytes of its tables, the buffer with both
      payloads, and what the header records of them. */
  datatype Block = Block(tables: seq<byte>, buf: seq<byte>, lits: Payload, matches: MatchPayload)

  /** `b` is the block of the literals and triples, its literal payload starting at `at` and
      its match payload behind eight bytes that follow it. */
  ghost predicate IsBlock(b: Block, T: Tables, tlit: seq<EncEntry>, flit: seq<nat>, lits: seq<byte>, ts: seq<Triple>, at: nat)
    requires T.Valid() && T.Coders().Valid() && T.Coders().KnowsAll(ts)
    requires |flit| == LITERAL_SYMBOLS && Coder(tlit, LITERAL_STATES, flit) && |lits| % 4 == 0 && Used(flit, lits)
  {
    && b.tables == FseFreqTable.Encode(Frequencies(T, flit))
    && Describes(b.lits, tlit, LITERAL_STATES, flit, lits, b.buf, at)
    && DescribesMatches(b.matches, T.Coders(), ts, b.buf, b.lits.end + 8)
  }

  /** The header yields the four tables, in the order of literal lengths, match lengths,
      distances and literals. */
  lemma HeaderReturns(T: Tables, tlit: seq<EncEntry>, flit: seq<nat>)
    requires T.Valid() && |flit| == LITERAL_SYMBOLS && Coder(tlit, LITERAL_STATES, flit)
    ensures var r := FseFreqTable.ReadTable(FseFreqTable.Encode(Frequencies(T, flit)), 360);
            && r.Some?
            && r.value[..20] == T.fl && r.value[20..40] == T.fm && r.value[40..104] == T.fd && r.value[104..] == flit
            && FromHeader(T, r.value) == T
  {
    hide Coder, FseFreqTable.ReadTable, FseFreqTable.Encode;
    FrequenciesStorable(T, tlit, flit);
    FseFreqTable.TableRoundTrip(Frequencies(T, flit));
    FourParts(T.fl, T.fm, T.fd, flit);
  }

  lemma FourParts(a: seq<nat>, b: seq<nat>, c: seq<nat>, d: seq<nat>)
    requires |a| == 20 && |b| == 20 && |c| == 64
    ensures var f := a + b + c + d;
            f[..20] == a && f[20..40] == b && f[40..104] == c && f[104..] == d
  {
  }

  /** A whole block comes back: the header yields the four frequency tables, the tables built
      from them decode the literals and the triples, each from its own end of the payloads. */
  lemma BlockRoundTrip(b: Block, T: Tables, tlit: seq<EncEntry>, flit: seq<nat>, lits: seq<byte>, ts: seq<Triple>, at: nat, start: nat)
    requires T.Valid() && T.Coders().Valid() && T.Coders().KnowsAll(ts)
    requires |flit| == LITERAL_SYMBOLS && Coder(tlit, LITERAL_STATES, flit) && |lits| % 4 == 0 && Used(flit, lits)
    requires IsBlock(b, T, tlit, flit, lits, ts, at) && at >= start + 7
    ensures T.Coders().l.n == 64 && T.Coders().m.n == 64 && T.Coders().d.n == 256
    ensures var r := FseFreqTable.ReadTable(b.tables, 360);
            && r.Some?
            && r.value[..20] == T.fl && r.value[20..40] == T.fm && r.value[40..104] == T.fd && r.value[104..] == flit
            && FromHeader(T, r.value) == T
            && Decoder(DecTable(1024, flit), 1024)
            && b.lits.s0 < 1024 && b.lits.s1 < 1024 && b.lits.s2 < 1024 && b.lits.s3 < 1024
            && b.lits.end <= |b.buf| && b.matches.end <= |b.buf|
            && Decode(DecTable(1024, flit), 1024, b.buf, start, b.lits, |lits| / 4) == Some(lits)
            && DecodeMatches(T.Coders(), b.buf, b.lits.end, b.matches, |ts|) == Some(ts)
  {
    hide Coder, Decode, DecodeMatches, EncodeGroups, PutTriples, FseFreqTable.ReadTable, FseFreqTable.Encode, Coders.Valid,
         Coders.KnowsAll, Value, DecTable, Frequencies, FromHeader, Tables.Valid;
    HeaderReturns(T, tlit, flit);
    LiteralsRoundTrip(b.lits, tlit, LITERAL_STATES, flit, lits, b.buf, at, start);
    MatchesRoundTrip(b.matches, T.Coders(), ts, b.buf, b.lits.end + 8, b.lits.end);
  }

  /** Frequencies that sum to 1024 or less are below the code's limit. */
  lemma FrequenciesStorable(T: Tables, tlit: seq<EncEntry>, flit: seq<nat>)
    requires T.Valid() && Coder(tlit, LITERAL_STATES, flit)
    ensures FseFreqTable.Storable(Frequencies(T, flit))
  {
    hide Sum, IsEncTable, States;
    BelowSum(T.fl);
    BelowSum(T.fm);
    BelowSum(T.fd);
    BelowSum(flit);
  }

  lemma BelowSum(f: seq<nat>)
    requires Sum(f) <= LITERAL_STATES
    ensures forall i | 0 <= i < |f| :: f[i] <= FseFreqTable.MAX_FREQ
  {
    forall i | 0 <= i < |f|
      ensures f[i] <= FseFreqTable.MAX_FREQ
    {
      SumAt(f, i);
    }
  }
}
