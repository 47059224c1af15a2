/** The second stage of levels 2 and 4: which of the five LZ16 sections are entropy-coded,
    and the way back through both stages. */
module Container {
  import opened Arith
  import opened Words
  import opened Bytes
  import opened Rans64
  import opened RansCodec
  import opened Nibbles
  import opened NibbleBuffer
  import opened Tokens
  import opened LzDecode
  import opened LzRoundTrip
  import opened LzMatch
  import opened LzCapacity
  import opened LzBytes
  import opened LzOutput
  import opened LzZeros
  import LzLayout

  const CODED_FROM := 4096

  /** Sections are visited from the last to the first; from the first long one on, all are
      coded. The result is the number of coded sections. */
  function CodedCount(secs: seq<seq<byte>>): (n: nat)
    ensures n <= |secs|
  {
    if secs == [] then 0
    else if |secs[|secs| - 1]| >= CODED_FROM then |secs|
    else CodedCount(secs[..|secs| - 1])
  }

  /** The sections up to the last one of 4096 bytes or more are coded, and no others. */
  lemma {:induction false} CodedCountExactly(secs: seq<seq<byte>>)
    ensures var n := CodedCount(secs);
            && (n > 0 ==> |secs[n - 1]| >= 4096)
            && forall i | n <= i < |secs| :: |secs[i]| < 4096
    decreases |secs|
  {
    if secs == [] {
    } else if |secs[|secs| - 1]| < 4096 {
      CodedCountExactly(secs[..|secs| - 1]);
    }
  }

  /** Lengths that fit the signed 32-bit length fields. */
  ghost predicate Moderate(secs: seq<seq<byte>>) {
    forall i | 0 <= i < |secs| :: |secs[i]| < L
  }

  /** Every section that will be coded has at least one byte. */
  predicate Codable(secs: seq<seq<byte>>, index: nat)
    requires index <= |secs|
  {
    forall i | 0 <= i < index :: secs[i] != []
  }

  /** Coded sections, then plain ones. */
  function Joined(secs: seq<seq<byte>>, index: nat): seq<byte>
    requires index <= |secs| && Moderate(secs) && Codable(secs, index)
  {
    if secs == [] then []
    else if index == 0 then secs[0] + Joined(secs[1..], 0)
    else Compress(secs[0]) + Joined(secs[1..], index - 1)
  }

  /** Lengths of the coded sections. */
  function CodedLengths(secs: seq<seq<byte>>, index: nat): (lens: seq<nat>)
    requires index <= |secs| && Moderate(secs) && Codable(secs, index)
    ensures |lens| == |secs|
  {
    if secs == [] then []
    else if index == 0 then [0] + CodedLengths(secs[1..], 0)
    else [|Compress(secs[0])|] + CodedLengths(secs[1..], index - 1)
  }

  /** mylz16torans64: nothing to code, coded data with its lengths, or a division by zero. */
  datatype Coded = Plain | Coded(data: seq<byte>, lens: seq<nat>, index: nat) | DividesByZero

  function ToRans(secs: seq<seq<byte>>): Coded
    requires Moderate(secs)
  {
    var index := CodedCount(secs);
    if index == 0 then Plain
    else if Codable(secs, index) then Coded(Joined(secs, index), CodedLengths(secs, index), index)
    else DividesByZero
  }

  /** Nothing is coded exactly when every section is shorter than 4096 bytes. */
  lemma PlainExactly(secs: seq<seq<byte>>)
    requires Moderate(secs)
    ensures ToRans(secs).Plain? <==> forall i | 0 <= i < |secs| :: |secs[i]| < 4096
    ensures ToRans(secs).Coded? ==>
              var n := ToRans(secs).index;
              0 < n <= |secs| && |secs[n - 1]| >= 4096 && forall i | n <= i < |secs| :: |secs[i]| < 4096
  {
    hide Joined, CodedLengths, CodedCount;
    CodedCountExactly(secs);
  }

  datatype Sections = Sections(secs: seq<seq<byte>>) | Bad

  /** myrans64tolz16: sections back from their lengths; `Bad` where an assertion fails, a
      section does not decode, or the data end early. */
  function FromRans(data: seq<byte>, lzlens: seq<nat>, lens: seq<nat>, index: nat, outlen: nat): Sections
    requires |lzlens| == |lens|
  {
    if lzlens == [] then Sections([])
    else if index == 0 then
      if lzlens[0] > |data| then Bad
      else
        match FromRans(data[lzlens[0]..], lzlens[1..], lens[1..], 0, outlen)
        case Bad => Bad
        case Sections(rest) => Sections([data[..lzlens[0]]] + rest)
    else if lens[0] > |data| || |data| < 8 || Get32(data) != lzlens[0] || Get32(data[4..]) != lens[0] % B32 then Bad
    else
      match Uncompress(data, outlen)
      case TooLong => Bad
      case Undefined => Bad
      case Ok(sec) =>
        match FromRans(data[lens[0]..], lzlens[1..], lens[1..], index - 1, outlen)
        case Bad => Bad
        case Sections(rest) => Sections([sec] + rest)
  }

  ghost predicate Fits(secs: seq<seq<byte>>, outlen: nat) {
    forall i | 0 <= i < |secs| :: |secs[i]| <= outlen
  }

  /** All sections come back, coded or not. */
  lemma {:induction false} SectionsReturn(secs: seq<seq<byte>>, index: nat, outlen: nat)
    requires index <= |secs| && Moderate(secs) && Codable(secs, index) && Fits(secs, outlen)
    ensures FromRans(Joined(secs, index), Sizes(secs), CodedLengths(secs, index), index, outlen) == Sections(secs)
    decreases |secs|
  {
    hide Compress, Uncompress, Get32;
    if secs == [] {
    } else {
      var s, rest := secs[0], secs[1..];
      assert [s] + rest == secs;
      if index == 0 {
        SectionsReturn(rest, 0, outlen);
        assert (s + Joined(rest, 0))[|s|..] == Joined(rest, 0) && (s + Joined(rest, 0))[..|s|] == s;
      } else {
        SectionsReturn(rest, index - 1, outlen);
        CodedSectionReturns(s, Joined(rest, index - 1), outlen);
      }
    }
  }

  lemma CodedSectionReturns(s: seq<byte>, after: seq<byte>, outlen: nat)
    requires 0 < |s| < L && |s| <= outlen
    ensures var data := Compress(s) + after;
            && |Compress(s)| >= 8
            && Get32(data) == |s| && Get32(data[4..]) == |Compress(s)| % B32
            && Uncompress(data, outlen) == Ok(s)
            && data[|Compress(s)|..] == after
  {
    hide Payload, Uncompress, LE32, Get32;
    RansRoundTrip(s, after, outlen);
    var p := Payload(s);
    var enlen: dword := (|p| + 8) % B32;
    var data := Compress(s) + after;
    assert data == LE32(|s|) + (LE32(enlen) + p + after);
    Get32Prefix(|s|, LE32(enlen) + p + after);
    assert data[4..] == LE32(enlen) + (p + after);
    Get32Prefix(enlen, p + after);
  }

  // ------------------------------------------------------- both stages together

  /** The decoder of levels 2 and 4: entropy-coded sections back, then the token decoder. */
  function DecodeBoth(data: seq<byte>, lzlens: seq<nat>, lens: seq<nat>, index: nat, inlen: nat, outlen: nat): Step<seq<byte>>
    requires |lzlens| == |lens| == SECTION_COUNT
  {
    match FromRans(data, lzlens, lens, index, Sum(lzlens))
    case Bad => Step<seq<byte>>.Undefined
    case Sections(secs) => if |secs| != SECTION_COUNT then Step<seq<byte>>.Undefined else Decode(Packed, StreamsOf(secs), inlen, outlen)
  }

  lemma EachFitsSum(secs: seq<seq<byte>>)
    ensures Fits(secs, Sum(Sizes(secs)))
  {
    forall i | 0 <= i < |secs|
      ensures |secs[i]| <= Sum(Sizes(secs))
    {
      SizesAt(secs, i);
      SumAt(Sizes(secs), i);
    }
  }

  /** An encoder's sections, whatever the memory made of their nibbles. */
  ghost predicate Outcome(S: Streams, finder: Finder, pin: seq<byte>, pad: byte, h: (word, word) -> Key)
    requires |pin| > LIMIT_LEN
  {
    var E := EncodeStreams(Packed, finder, pin, pad, h);
    |S.nibs| == |E.nibs| && S.(nibs := E.nibs) == E
  }

  /** Section lengths fit the length fields whenever the encoder's own arithmetic on the
      input length does not overflow. */
  lemma OutcomeIsModerate(S: Streams, finder: Finder, pin: seq<byte>, pad: byte, h: (word, word) -> Key)
    requires LIMIT_LEN < |pin| && 3 * |pin| < L && Outcome(S, finder, pin, pad, h)
    ensures |S.nibs| % 2 == 0 && Moderate(SectionBytes(S))
  {
    hide EncodeStreams, BytesOf, PackNibbles;
    EncodedIsWhole(Packed, finder, pin, pad, h);
    var secs := SectionBytes(S);
    forall i | 0 <= i < SECTION_COUNT
      ensures |secs[i]| < L
    {
      SectionsFit(Packed, finder, pin, pad, h, true, i);
      assert |secs[i]| == SectionLength(EncodeStreams(Packed, finder, pin, pad, h), i);
    }
  }

  /** What the second stage makes of sections. */
  function SecondStage(S: Streams): Coded
    requires |S.nibs| % 2 == 0 && Moderate(SectionBytes(S))
  {
    ToRans(SectionBytes(S))
  }

  /** Whenever the second stage codes sections, decoding both stages is decoding the
      sections. */
  lemma SecondStageReturns(S: Streams, inlen: nat, outlen: nat)
    requires |S.nibs| % 2 == 0 && Moderate(SectionBytes(S)) && SecondStage(S).Coded?
    ensures var c := SecondStage(S);
            && |c.lens| == SECTION_COUNT
            && DecodeBoth(c.data, Sizes(SectionBytes(S)), c.lens, c.index, inlen, outlen) == Decode(Packed, S, inlen, outlen)
  {
    hide Decode, FromRans, Joined, CodedLengths, CodedCount, Sum, Sizes, PackNibbles;
    var secs := SectionBytes(S);
    SectionBytesReturn(S);
    EachFitsSum(secs);
    SectionsReturn(secs, CodedCount(secs), Sum(Sizes(secs)));
  }

  /** Both stages of levels 2 and 4 undone: whenever the second stage codes the sections of
      an input that came out clean, decoding them and then the tokens returns the input. */
  lemma BothStagesRoundTrip(finder: Finder, pin: seq<byte>, pad: byte, h: (word, word) -> Key, room: nat, mem0: seq<byte>, outlen: nat)
    requires BuffersFit(|pin|, room) && PlacesFor(|pin|, room).end <= |mem0|
    requires |pin| <= outlen && 3 * |pin| < L
    requires EncodeOutcome(Packed, finder, pin, pad, h, room, mem0).Encoded?
    ensures var S := EncodeOutcome(Packed, finder, pin, pad, h, room, mem0).sections;
            var N := EncodeStreams(Packed, finder, pin, pad, h).nibs;
            && |S.nibs| % 2 == 0 && Moderate(SectionBytes(S))
            && |N| % 2 == 0 && PlacesFor(|pin|, room).o4 + |N| / 2 <= |mem0|
            && (Clean(mem0, 2 * |pin|, PlacesFor(|pin|, room).o4, N) && SecondStage(S).Coded? ==>
                 var c := SecondStage(S);
                 && |c.lens| == SECTION_COUNT
                 && DecodeBoth(c.data, Sizes(SectionBytes(S)), c.lens, c.index, |pin|, outlen) == Go(pin))
  {
    hide EncodeStreams, EncodeOutcome, Decode, SecondStage, DecodeBoth, Sizes, SectionBytes, Moderate, Clean, Capacity, LzLayout.Reserve;
    EncodeOutcomeExactly(Packed, finder, pin, pad, h, room, mem0);
    var S := EncodeOutcome(Packed, finder, pin, pad, h, room, mem0).sections;
    OutcomeIsModerate(S, finder, pin, pad, h);
    if SecondStage(S).Coded? {
      SecondStageReturns(S, |pin|, outlen);
      Lz16RoundTrip(Packed, finder, pin, pad, h, outlen);
    }
  }

  // ------------------------------------------- when the second stage is undefined

  /** The encoder never leaves a section empty, except the one with the distance bytes. */
  lemma OnlyDistancesCanBeEmpty(layout: Layout, finder: Finder, pin: seq<byte>, pad: byte, h: (word, word) -> Key)
    requires |pin| > LIMIT_LEN
    ensures var S := EncodeStreams(layout, finder, pin, pad, h);
            S.chars != [] && S.dflag != [] && S.flag != [] && |S.nibs| >= 2
  {
    hide PrintAll, Search, EncodeStreams, Pack, Valid;
    var w := Pack(pin, pad);
    var st := Search(finder, w, h, |pin|);
    SectionsOf(layout, finder, pin, pad, h);
    RestIsLong(w, |pin|, st);
    EncodedIsWhole(layout, finder, pin, pad, h);
    assert w[st.from..] != [];
    assert |TailFlag(|w[st.from..]|)| > 0;
  }

  lemma CountOfFive(secs: seq<seq<byte>>)
    requires |secs| == SECTION_COUNT
    ensures CodedCount(secs) > 2 <==> |secs[2]| >= CODED_FROM || |secs[3]| >= CODED_FROM || |secs[4]| >= CODED_FROM
  {
    var s4 := secs[..4];
    var s3 := s4[..3];
    assert s4[3] == secs[3] && s3[2] == secs[2];
    assert CodedCount(s3[..2]) <= 2;
    assert CodedCount(s3) > 2 <==> |secs[2]| >= CODED_FROM;
    assert CodedCount(s4) > 2 <==> |secs[2]| >= CODED_FROM || |secs[3]| >= CODED_FROM;
  }

  /** The second stage divides by zero exactly when no distance byte was written and the
      flag or the nibble section is long enough to be coded. */
  lemma DividesByZeroExactly(S: Streams, finder: Finder, pin: seq<byte>, pad: byte, h: (word, word) -> Key)
    requires LIMIT_LEN < |pin| && 3 * |pin| < L && Outcome(S, finder, pin, pad, h)
    ensures |S.nibs| % 2 == 0 && Moderate(SectionBytes(S))
    ensures SecondStage(S).DividesByZero? <==> S.dist == [] && (|S.flag| >= 4096 || |S.nibs| / 2 >= 4096)
  {
    hide EncodeStreams, Joined, CodedLengths, CodedCount, PackNibbles;
    OutcomeIsModerate(S, finder, pin, pad, h);
    OnlyDistancesCanBeEmpty(Packed, finder, pin, pad, h);
    var secs := SectionBytes(S);
    CountOfFive(secs);
    assert secs[0] != [] && secs[1] != [] && secs[2] == S.dist && secs[3] != [] && secs[4] != [];
  }

  // A family of inputs on which it does: long runs of zero bytes.

  lemma {:induction false} RunCodeLength(r: nat)
    ensures |RunCode(r)| == 2 * (r / 255) + 2
    decreases r
  {
    if r < 255 {
    } else {
      RunCodeLength(r - 255);
      assert (r - 255) / 255 == r / 255 - 1;
    }
  }

  /** About two million zero bytes or more at levels 2 and 4: the program divides by zero,
      whatever its output memory held. */
  lemma ZerosDivideByZero(finder: Finder, h: (word, word) -> Key, pin: seq<byte>, j: nat, room: nat, mem0: seq<byte>)
    requires 0x4_0000 <= j < 0x400_0000 && pin == Zeros(8 * j + 20)
    requires BuffersFit(|pin|, room) && PlacesFor(|pin|, room).end <= |mem0|
    ensures var r := EncodeOutcome(Packed, finder, pin, 0, h, room, mem0);
            && r.Encoded? && |r.sections.nibs| % 2 == 0 && Moderate(SectionBytes(r.sections))
            && SecondStage(r.sections).DividesByZero?
  {
    hide EncodeStreams, EncodeOutcome, SecondStage, SectionBytes, Moderate, Capacity, LzLayout.Reserve, Clean, Decode, ZeroBehind;
    EncodeOutcomeExactly(Packed, finder, pin, 0, h, room, mem0);
    LongZeros(finder, h, pin, j);
    FewLiteralsFit(|pin|, IsLarge(|pin|, room));
    var S := EncodeOutcome(Packed, finder, pin, 0, h, room, mem0).sections;
    DividesByZeroExactly(S, finder, pin, 0, h);
  }

  lemma FewLiteralsFit(inlen: nat, large: bool)
    requires inlen >= 40
    ensures Capacity(0, inlen, large) >= 38
  {
  }

  lemma LongZeros(finder: Finder, h: (word, word) -> Key, pin: seq<byte>, j: nat)
    requires j >= 0x4_0000 && pin == Zeros(8 * j + 20)
    ensures var S := EncodeStreams(Packed, finder, pin, 0, h);
            S.dist == [] && |S.nibs| / 2 >= CODED_FROM && |S.chars| < 19
  {
    hide Search, Pack, PrintAll, Finish, EncodeStreams, Good, Valid;
    var w := Pack(pin, 0);
    ZerosSearch(finder, h, pin, j);
    SectionsOf(Packed, finder, pin, 0, h);
    OneTokenStreams([0], 4 * j - 1, w[Search(finder, w, h, |pin|).from..]);
  }

  /** One token, and the last block from the eighth word before the end. */
  lemma ZerosSearch(finder: Finder, h: (word, word) -> Key, pin: seq<byte>, j: nat)
    requires j >= 2 && pin == Zeros(8 * j + 20)
    ensures var st := Search(finder, Pack(pin, 0), h, |pin|);
            st.tokens == [Token([0], 4 * j - 1, 1)] && st.from == 4 * j + 2
  {
    hide Search, Pack, Good, LzZeros.Zeros;
    DivModUnique(|pin|, 2, 4 * j + 10, 0);
    DivModUnique(|pin| + 1, 2, 4 * j + 10, 1);
    PackZeros(pin);
    ZeroWordsSearch(finder, h, Pack(pin, 0), j);
  }

  lemma ZeroWordsSearch(finder: Finder, h: (word, word) -> Key, w: seq<word>, j: nat)
    requires j >= 2 && |w| == 4 * j + 10 && forall i | 0 <= i < |w| :: w[i] == 0
    ensures var st := Search(finder, w, h, 2 * |w|);
            st.tokens == [Token([0], 4 * j - 1, 1)] && st.from == 4 * j + 2
  {
    hide Search, Good;
    ZerosTokens(finder, w, h, j);
    RestAfterOne(w, 2 * |w|, Search(finder, w, h, 2 * |w|), 4 * j - 1);
  }

  /** Behind one token of all but nine words. */
  lemma RestAfterOne(w: seq<word>, inlen: nat, st: EncSt, extra: nat)
    requires Good(w, SearchEnd(inlen), st) && st.tokens == [Token([0], extra, 1)]
    ensures st.from == extra + 3
  {
    var t := Token([0], extra, 1);
    assert [t][..0] == [] && Expand([]) == [];
    assert |Expand([t])| == extra + 3;
  }

  lemma OneTokenStreams(lits: seq<word>, extra: nat, tail: seq<word>)
    requires |lits| == 1 && extra >= 0x10_0000 - 1
    ensures var S := Finish(PrintAll(Packed, [Token(lits, extra, 1)]), tail);
            S.dist == [] && |S.nibs| / 2 >= CODED_FROM && |S.chars| == 1 + |tail|
  {
    var t := Token(lits, extra, 1);
    assert [t][..0] == [] && PrintAll(Packed, []) == Empty;
    RunCodeLength(extra - 1 - 7 - 30);
    assert PrintAll(Packed, [t]).nibs == [] + ([] + LengthCode(extra - 1 - 7));
    assert PrintAll(Packed, [t]).dist == [] + [];
    assert PrintAll(Packed, [t]).chars == [] + lits;
  }
}
