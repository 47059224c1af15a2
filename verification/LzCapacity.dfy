/** How large the five sections can get, against the capacities the encoder reserves. */
module LzCapacity {
  import opened Words
  import opened Nibbles
  import opened Tokens
  import opened LzRoundTrip
  import opened LzMatch

  /** Reserved bytes of section `i`; `large` for an output of 2.5 times the input or more. */
  function Capacity(i: nat, inlen: nat, large: bool): nat
    requires i < 5
  {
    var f := if large then 1 else 0;
    if i == 0 then inlen * 3 / 4 + f * (inlen / 4) + inlen % 2 + REST_LEN
    else if i == 2 then inlen / 2 + f * (inlen / 8) + REST_LEN
    else inlen / 4 + f * (inlen / 16) + REST_LEN
  }

  /** Bytes of section `i` once the last block is written. */
  function SectionLength(s: Streams, i: nat): nat
    requires i < 5
  {
    match i
    case 0 => 2 * |s.chars|
    case 1 => |s.dflag|
    case 2 => |s.dist|
    case 3 => |s.flag|
    case _ => |s.nibs| / 2
  }

  lemma CappedCodeSize(l: nat, limit: nat)
    requires limit >= 1
    ensures |CappedCode(l, limit)| <= l
  {
    if l >= limit {
      LengthCodeSize(l - limit);
    }
  }

  /** One token: a flag byte in the second section, at most one in the fourth, two distance
      bytes, and no more nibbles than the words it stands for. */
  lemma TokenSize(layout: Layout, t: Token)
    requires 1 <= t.dist < MATCH_OFFSET_MAX
    ensures var F := Print(layout, t);
            && |F.chars| == |t.lits| && |F.dflag| == 1 && |F.dist| <= 2 && |F.flag| <= 1
            && |F.nibs| <= Consumed(t)
  {
    hide LengthCode, RestBytes, RestFlag, CappedCode, Capped;
    if t.lits != [] {
      LengthCodeSize(|t.lits| - 1);
      CappedCodeSize(|t.lits| - 1, 3);
    }
    if t.extra > 0 {
      CappedCodeSize(t.extra - 1, 7);
    }
  }

  lemma {:induction false} TokensSize(layout: Layout, ts: seq<Token>)
    requires Valid(ts) && Printable(ts)
    ensures var P := PrintAll(layout, ts);
            && |P.chars| + 2 * |ts| <= |Expand(ts)|
            && |P.dflag| == |ts| && |P.dist| <= 2 * |ts| && |P.flag| <= |ts|
            && |P.nibs| <= |Expand(ts)|
  {
    hide Print;
    if ts == [] {
    } else {
      TokensSize(layout, ts[..|ts| - 1]);
      TokenSize(layout, ts[|ts| - 1]);
    }
  }

  lemma {:induction false} TailRunSize(l: nat)
    ensures 1 <= |TailRun(l)| <= l / 255 + 1
    decreases l
  {
    if l < 255 {
    } else {
      TailRunSize(l - 255);
    }
  }

  /** The length of the last block never takes more bytes than half its words. */
  lemma TailFlagSize(n: nat)
    requires n >= 3
    ensures 1 <= |TailFlag(n)| <= n / 2
  {
    if n >= 15 {
      TailRunSize(n - 15);
    }
  }

  lemma FinishSize(P: Streams, tail: seq<word>)
    requires |tail| >= 3
    ensures var F := Finish(P, tail);
            && |F.chars| == |P.chars| + |tail| && |F.dflag| == |P.dflag| + 1 && |F.dist| == |P.dist|
            && |P.flag| + 1 <= |F.flag| <= |P.flag| + |tail| / 2
            && |F.nibs| / 2 == |P.nibs| / 2 + 1
  {
    hide TailFlag;
    TailFlagSize(|tail|);
  }

  lemma SizesFit(F: Streams, inlen: nat, from: nat, tokens: nat, large: bool, i: nat)
    requires LIMIT_LEN < inlen && i < 5 && from < (inlen + 1) / 2
    requires tokens == 0 ==> from == 0
    requires tokens > 0 ==> from + 4 <= inlen / 2
    requires 2 * tokens <= from && |F.chars| + 2 * tokens <= (inlen + 1) / 2
    requires |F.dflag| == tokens + 1 && |F.dist| <= 2 * tokens
    requires |F.flag| <= tokens + ((inlen + 1) / 2 - from) / 2
    requires |F.nibs| / 2 <= from / 2 + 1
    ensures i > 0 || large ==> SectionLength(F, i) <= Capacity(i, inlen, large)
  {
  }

  /** Sections 1 to 4 fit their capacities for every input, hash, search and layout. Only
      the literal section can overflow, and not even that one with the large capacities. */
  lemma SectionsFit(layout: Layout, finder: Finder, pin: seq<byte>, pad: byte, h: (word, word) -> Key, large: bool, i: nat)
    requires LIMIT_LEN < |pin| && i < 5
    ensures i > 0 || large ==>
      SectionLength(EncodeStreams(layout, finder, pin, pad, h), i) <= Capacity(i, |pin|, large)
  {
    hide PrintAll, Finish, Search, SectionLength, Capacity, Valid, Pack;
    var w := Pack(pin, pad);
    var st := Search(finder, w, h, |pin|);
    ValidIsPrintable(st.tokens);
    TokensSize(layout, st.tokens);
    RestIsLong(w, |pin|, st);
    assert |Expand(st.tokens)| == st.from;
    FinishSize(PrintAll(layout, st.tokens), w[st.from..]);
    SizesFit(EncodeStreams(layout, finder, pin, pad, h), |pin|, st.from, |st.tokens|, large, i);
  }

  /** The four-byte store of a distance stays inside the distance section: tokens number at
      most a quarter of the input's bytes. */
  lemma DistanceStoreFits(layout: Layout, ts: seq<Token>, inlen: nat, large: bool)
    requires Valid(ts) && Printable(ts) && ts != [] && |Expand(ts)| + 4 <= inlen / 2
    ensures |ts| <= inlen / 4 - 2
    ensures |PrintAll(layout, ts[..|ts| - 1]).dist| + 4 <= Capacity(2, inlen, large)
  {
    hide PrintAll, Expand;
    TokensSize(layout, ts);
    ValidPrefix(ts, |ts| - 1);
    ValidIsPrintable(ts[..|ts| - 1]);
    TokensSize(layout, ts[..|ts| - 1]);
  }
}
