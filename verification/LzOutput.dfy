/** What an LZ16 encoder leaves in its output memory. The memory is cleared only as far as
    twice the input reaches, and nibbles are or-ed into what lies behind; so the result
    depends on what the caller hands in. */
module LzOutput {
  import opened Words
  import opened Nibbles
  import opened NibbleBuffer
  import opened Tokens
  import opened LzRoundTrip
  import opened LzMatch
  import opened LzCapacity
  import opened LzBytes
  import opened LzLayout
  import LzDecode

  /** CheckBuffer: input and output lengths the encoder works on. */
  predicate BuffersFit(inlen: nat, outlen: nat) {
    inlen > LIMIT_LEN && outlen >= 2 * inlen && outlen >= 1024
  }

  /** An output of 2.5 times the input selects the larger reserves. */
  predicate IsLarge(inlen: nat, outlen: nat) {
    2 * outlen >= 5 * inlen
  }

  function PlacesFor(inlen: nat, outlen: nat): (P: Places)
    ensures P.Ordered()
  {
    Reserve(inlen, IsLarge(inlen, outlen))
  }

  /** The memory after CheckBuffer: zeros for twice the length of the input. */
  function Opened(mem0: seq<byte>, inlen: nat): (m: seq<byte>)
    ensures |m| == |mem0|
  {
    seq(|mem0|, i requires 0 <= i < |mem0| => if i < 2 * inlen then 0 else mem0[i])
  }

  predicate Overflows(S: Streams, inlen: nat, large: bool) {
    exists i | 0 <= i < SECTION_COUNT :: SectionLength(S, i) > Capacity(i, inlen, large)
  }

  /** What an encoder makes of an input: its five sections as they lie in the memory, or an
      error. */
  datatype Encoded = Encoded(sections: Streams) | Refused | SectionOver

  /** The sections `S`, with their nibbles or-ed over what is left in the memory. */
  function OutcomeIn(S: Streams, inlen: nat, large: bool, mem0: seq<byte>): Encoded
    requires 2 * Reserve(inlen, large).o4 + |S.nibs| <= 2 * |mem0|
  {
    if Overflows(S, inlen, large) then SectionOver
    else Encoded(S.(nibs := Overlaid(Opened(mem0, inlen), Reserve(inlen, large).o4, S.nibs)))
  }

  /** `mem0` is the memory from the output pointer on, of which the caller's buffer is the
      first `outlen` bytes. */
  function EncodeOutcome(layout: Layout, finder: Finder, pin: seq<byte>, pad: byte, h: (word, word) -> Key,
                         outlen: nat, mem0: seq<byte>): Encoded
    requires BuffersFit(|pin|, outlen) ==> PlacesFor(|pin|, outlen).end <= |mem0|
  {
    if !BuffersFit(|pin|, outlen) then Refused
    else
      SectionsFit(layout, finder, pin, pad, h, IsLarge(|pin|, outlen), 4);
      EncodedIsWhole(layout, finder, pin, pad, h);
      OutcomeIn(EncodeStreams(layout, finder, pin, pad, h), |pin|, IsLarge(|pin|, outlen), mem0)
  }

  /** Nibbles of a finished stream fill whole bytes. */
  lemma FinishedIsWhole(s: Streams, tail: seq<word>)
    ensures |Finish(s, tail).nibs| % 2 == 0
  {
  }

  lemma EncodedIsWhole(layout: Layout, finder: Finder, pin: seq<byte>, pad: byte, h: (word, word) -> Key)
    requires |pin| > LIMIT_LEN
    ensures |EncodeStreams(layout, finder, pin, pad, h).nibs| % 2 == 0
  {
    hide PrintAll, Finish, Search, EncodeStreams;
    var w := Pack(pin, pad);
    var st := Search(finder, w, h, |pin|);
    SectionsOf(layout, finder, pin, pad, h);
    FinishedIsWhole(PrintAll(layout, st.tokens), w[st.from..]);
  }

  // -------------------------------------------------- when the nibbles come out right

  /** Each used byte of the nibble section lies in the cleared memory, or its old bits are
      among those that are written. */
  predicate Clean(mem0: seq<byte>, cleared: nat, base: nat, nibs: seq<nibble>)
    requires |nibs| % 2 == 0 && base + |nibs| / 2 <= |mem0|
  {
    forall k | 0 <= k < |nibs| / 2 :: base + k < cleared || Within(mem0[base + k], PackNibbles(nibs)[k])
  }

  lemma OverlaidExactly(mem0: seq<byte>, inlen: nat, base: nat, nibs: seq<nibble>)
    requires |nibs| % 2 == 0 && base + |nibs| / 2 <= |mem0|
    ensures Overlaid(Opened(mem0, inlen), base, nibs) == nibs <==> Clean(mem0, 2 * inlen, base, nibs)
  {
    hide Or4, Within;
    var m := Opened(mem0, inlen);
    var r := Overlaid(m, base, nibs);
    forall k | 0 <= k < |nibs| / 2
      ensures r[2 * k] == nibs[2 * k] && r[2 * k + 1] == nibs[2 * k + 1]
         <==> base + k < 2 * inlen || Within(mem0[base + k], PackNibbles(nibs)[k])
    {
      OverlaidPair(m, base, nibs, k);
      NoBits(PackNibbles(nibs)[k]);
    }
    PairsDecide(r, nibs);
  }

  lemma NoBits(b: byte)
    ensures Within(0, b)
  {
  }

  lemma OverlaidPair(m: seq<byte>, base: nat, nibs: seq<nibble>, k: nat)
    requires |nibs| % 2 == 0 && base + |nibs| / 2 <= |m| && k < |nibs| / 2
    ensures var r := Overlaid(m, base, nibs);
            r[2 * k] == nibs[2 * k] && r[2 * k + 1] == nibs[2 * k + 1] <==> Within(m[base + k], PackNibbles(nibs)[k])
  {
    hide Or4, Within;
    ByteAbsorbs(m[base + k], nibs[2 * k], nibs[2 * k + 1]);
    assert Nib(m, 2 * base + 2 * k) == m[base + k] % 16;
    assert Nib(m, 2 * base + (2 * k + 1)) == m[base + k] / 16;
  }

  lemma PairsDecide(r: seq<nibble>, s: seq<nibble>)
    requires |r| == |s| && |s| % 2 == 0
    ensures r == s <==> forall k | 0 <= k < |s| / 2 :: r[2 * k] == s[2 * k] && r[2 * k + 1] == s[2 * k + 1]
  {
    if forall k | 0 <= k < |s| / 2 :: r[2 * k] == s[2 * k] && r[2 * k + 1] == s[2 * k + 1] {
      forall i | 0 <= i < |s|
        ensures r[i] == s[i]
      {
        assert i == 2 * (i / 2) || i == 2 * (i / 2) + 1;
      }
    }
  }

  /** What a caller can see to: nothing but zeros between the cleared memory and the end of
      the reserves. */
  predicate ZeroBehind(mem0: seq<byte>, inlen: nat, P: Places)
    requires P.end <= |mem0|
  {
    forall k | 2 * inlen <= k < P.end :: mem0[k] == 0
  }

  lemma ZeroBehindIsClean(mem0: seq<byte>, inlen: nat, P: Places, nibs: seq<nibble>)
    requires P.end <= |mem0| && ZeroBehind(mem0, inlen, P)
    requires |nibs| % 2 == 0 && P.o4 + |nibs| / 2 <= P.end
    ensures Clean(mem0, 2 * inlen, P.o4, nibs)
  {
    hide PackNibbles;
    forall k | 0 <= k < |nibs| / 2
      ensures P.o4 + k < 2 * inlen || Within(mem0[P.o4 + k], PackNibbles(nibs)[k])
    {
      NoBits(PackNibbles(nibs)[k]);
    }
  }

  /** Exactly when encoding succeeds: the lengths are accepted and the literals fit their
      reserve, which the larger reserves guarantee. Exactly when the sections come out as
      specified: every used byte of the nibble section is clean. They then decode to the
      input. */
  lemma EncodeOutcomeExactly(layout: Layout, finder: Finder, pin: seq<byte>, pad: byte, h: (word, word) -> Key,
                             outlen: nat, mem0: seq<byte>)
    requires BuffersFit(|pin|, outlen) ==> PlacesFor(|pin|, outlen).end <= |mem0|
    ensures var r := EncodeOutcome(layout, finder, pin, pad, h, outlen, mem0);
            && (r.Refused? <==> !BuffersFit(|pin|, outlen))
            && (BuffersFit(|pin|, outlen) ==>
                 var S := EncodeStreams(layout, finder, pin, pad, h);
                 var P := PlacesFor(|pin|, outlen);
                 && |S.nibs| % 2 == 0 && P.o4 + |S.nibs| / 2 <= P.end
                 && (r.SectionOver? <==> 2 * |S.chars| > Capacity(0, |pin|, IsLarge(|pin|, outlen)))
                 && (IsLarge(|pin|, outlen) ==> r.Encoded?)
                 && (r.Encoded? ==>
                      && |r.sections.nibs| == |S.nibs| && r.sections.(nibs := S.nibs) == S
                      && (r.sections == S <==> Clean(mem0, 2 * |pin|, P.o4, S.nibs))
                      && (ZeroBehind(mem0, |pin|, P) ==> r.sections == S)
                      && (r.sections == S ==> LzDecode.Decode(layout, r.sections, |pin|, |pin|) == LzDecode.Go(pin))))
  {
    hide EncodeStreams, LzDecode.Decode, Capacity, Overlaid, Opened, Clean, ZeroBehind;
    if BuffersFit(|pin|, outlen) {
      var large := IsLarge(|pin|, outlen);
      var P := PlacesFor(|pin|, outlen);
      var S := EncodeStreams(layout, finder, pin, pad, h);
      Lz16RoundTrip(layout, finder, pin, pad, h, |pin|);
      EncodedIsWhole(layout, finder, pin, pad, h);
      OverflowExactly(layout, finder, pin, pad, h, large);
      SectionsFit(layout, finder, pin, pad, h, large, 4);
      OverlaidExactly(mem0, |pin|, P.o4, S.nibs);
      if ZeroBehind(mem0, |pin|, P) {
        ZeroBehindIsClean(mem0, |pin|, P, S.nibs);
      }
    }
  }

  lemma OverflowExactly(layout: Layout, finder: Finder, pin: seq<byte>, pad: byte, h: (word, word) -> Key, large: bool)
    requires |pin| > LIMIT_LEN
    ensures var S := EncodeStreams(layout, finder, pin, pad, h);
            && (Overflows(S, |pin|, large) <==> 2 * |S.chars| > Capacity(0, |pin|, large))
            && (large ==> !Overflows(S, |pin|, large))
  {
    hide EncodeStreams, Capacity;
    var S := EncodeStreams(layout, finder, pin, pad, h);
    forall i | 0 <= i < SECTION_COUNT && (i > 0 || large)
      ensures SectionLength(S, i) <= Capacity(i, |pin|, large)
    {
      SectionsFit(layout, finder, pin, pad, h, large, i);
    }
    assert SectionLength(S, 0) == 2 * |S.chars|;
  }

  // -------------------------------------------------------- the way back from memory

  /** Decoding a merged output: the sections are cut by their lengths and decoded. */
  function DecodeMerged(layout: Layout, b: seq<byte>, lens: seq<nat>, inlen: nat, outlen: nat): LzDecode.Step<seq<byte>>
    requires |lens| == SECTION_COUNT
  {
    match Cut(b, lens)
    case None => LzDecode.Undefined
    case Some(secs) => if |secs| != SECTION_COUNT then LzDecode.Undefined else LzDecode.Decode(layout, StreamsOf(secs), inlen, outlen)
  }

  /** Decoding the merged sections is decoding the sections, whatever follows them. */
  lemma MergedDecodes(layout: Layout, S: Streams, after: seq<byte>, inlen: nat, outlen: nat)
    requires |S.nibs| % 2 == 0
    ensures DecodeMerged(layout, Concat(SectionBytes(S)) + after, Sizes(SectionBytes(S)), inlen, outlen)
         == LzDecode.Decode(layout, S, inlen, outlen)
  {
    hide LzDecode.Decode, SectionBytes, StreamsOf, Concat, Sizes;
    CutConcat(SectionBytes(S), after);
    SectionBytesReturn(S);
  }

  // ------------------------------------------------------------ inside the output?

  /** The reserves, as they are laid out, do not fit an output of twice or of 2.5 times the
      input: only the sections in front of the nibbles always lie inside. */
  lemma ReservesExceed(inlen: nat, outlen: nat)
    requires BuffersFit(inlen, outlen)
    ensures var P := PlacesFor(inlen, outlen);
            && P.o4 <= outlen
            && 2 * inlen < P.end
            && (outlen == 2 * inlen ==> outlen < P.end)
            && (outlen == (5 * inlen + 1) / 2 ==> outlen < P.end)
            && (IsLarge(inlen, outlen) ==> 2 * inlen + inlen / 8 < P.o4)
  {
  }

  /** The lengths that are accepted, and the reserves in bytes. */
  lemma ReservesByNumber(inlen: nat, outlen: nat)
    ensures BuffersFit(inlen, outlen) <==> inlen > 8 && outlen >= 2 * inlen && outlen >= 1024
    ensures var P, large := PlacesFor(inlen, outlen), 2 * outlen >= 5 * inlen;
            && P.Place(0) == 52
            && P.o1 - 52 == inlen * 3 / 4 + inlen % 2 + 8 + (if large then inlen / 4 else 0)
            && P.o2 - P.o1 == inlen / 4 + 8 + (if large then inlen / 16 else 0)
            && P.o3 - P.o2 == inlen / 2 + 8 + (if large then inlen / 8 else 0)
            && P.o4 - P.o3 == P.end - P.o4 == P.o2 - P.o1
  {
  }

  /** The used bytes of the nibble section number less than a quarter of the input's. So
      nothing is written behind an output with 84 bytes more than the least length of its
      kind; with less, what is written ends at `P.o4` and the used nibble bytes. */
  lemma StaysInside(layout: Layout, finder: Finder, pin: seq<byte>, pad: byte, h: (word, word) -> Key, outlen: nat)
    requires BuffersFit(|pin|, outlen)
    ensures var S := EncodeStreams(layout, finder, pin, pad, h);
            var least := if IsLarge(|pin|, outlen) then (5 * |pin| + 1) / 2 else 2 * |pin|;
            && |S.nibs| / 2 < |pin| / 4
            && (outlen >= least + 84 ==> PlacesFor(|pin|, outlen).o4 + |S.nibs| / 2 <= outlen)
  {
    hide EncodeStreams, PlacesFor;
    FewNibbles(layout, finder, pin, pad, h);
    NibblesEnd(|pin|, outlen, |EncodeStreams(layout, finder, pin, pad, h).nibs| / 2);
  }

  lemma FewNibbles(layout: Layout, finder: Finder, pin: seq<byte>, pad: byte, h: (word, word) -> Key)
    requires |pin| > LIMIT_LEN
    ensures |EncodeStreams(layout, finder, pin, pad, h).nibs| / 2 < |pin| / 4
  {
    hide PrintAll, Finish, Search, Valid, Pack, EncodeStreams;
    var w := Pack(pin, pad);
    var st := Search(finder, w, h, |pin|);
    ValidIsPrintable(st.tokens);
    TokensSize(layout, st.tokens);
    RestIsLong(w, |pin|, st);
    assert |Expand(st.tokens)| == st.from;
    FinishSize(PrintAll(layout, st.tokens), w[st.from..]);
    SectionsOf(layout, finder, pin, pad, h);
  }

  lemma SectionsOf(layout: Layout, finder: Finder, pin: seq<byte>, pad: byte, h: (word, word) -> Key)
    requires |pin| > LIMIT_LEN
    ensures var w := Pack(pin, pad);
            var st := Search(finder, w, h, |pin|);
            Printable(st.tokens) && EncodeStreams(layout, finder, pin, pad, h) == Finish(PrintAll(layout, st.tokens), w[st.from..])
  {
    ValidIsPrintable(Search(finder, Pack(pin, pad), h, |pin|).tokens);
  }

  lemma NibblesEnd(inlen: nat, outlen: nat, used: nat)
    requires BuffersFit(inlen, outlen) && used < inlen / 4
    ensures var least := if IsLarge(inlen, outlen) then (5 * inlen + 1) / 2 else 2 * inlen;
            outlen >= least + 84 ==> PlacesFor(inlen, outlen).o4 + used <= outlen
  {
  }
}
