/** Inputs of zeros: one literal, one match, and what an unclean memory makes of them. */
module LzZeros {
  import opened Words
  import opened Nibbles
  import opened NibbleBuffer
  import opened Tokens
  import opened LzRoundTrip
  import opened LzMatch
  import opened LzCapacity
  import opened LzOutput
  import LzDecode

  function Zeros(n: nat): (b: seq<byte>)
    ensures |b| == n && forall i | 0 <= i < n :: b[i] == 0
  {
    seq(n, _ => 0)
  }

  lemma {:induction false} PackZeros(pin: seq<byte>)
    requires |pin| % 2 == 0 && forall i | 0 <= i < |pin| :: pin[i] == 0
    ensures forall i | 0 <= i < |Pack(pin, 0)| :: Pack(pin, 0)[i] == 0
    decreases |pin|
  {
    if pin == [] {
    } else {
      PackZeros(pin[2..]);
    }
  }

  /** The first match in zeros is at the start, one word back, and runs to the search's end. */
  lemma ZerosMatch(finder: Finder, w: seq<word>, h: (word, word) -> Key, j: nat, cdl: seq<nat>, ht: seq<nat>)
    requires j >= 2 && |w| == 4 * j + 10 && forall i | 0 <= i < |w| :: w[i] == 0
    requires |ht| == HASH_SIZE && (forall k | 0 <= k < HASH_SIZE :: ht[k] == 0)
    requires |cdl| == RING * HASH_SIZE && (forall k | 0 <= k < RING * HASH_SIZE :: cdl[k] == 0)
    ensures Find(finder, w, h, 1, 4 * j + 2, ht, cdl).hit == Some((0, 4 * j - 1))
  {
    var end := 4 * j + 2;
    ZerosCommon(w, 0, 1);
    assert Compared(1, end) == end;
    assert MatchExtra(w, 0, 1, end) == end - 3;
  }

  lemma {:induction false} ZerosCommon(w: seq<word>, a: nat, b: nat)
    requires a <= b <= |w| && forall i | 0 <= i < |w| :: w[i] == 0
    ensures Common(w, a, b) == |w| - b
    decreases |w| - b
  {
    if b == |w| {
    } else {
      ZerosCommon(w, a + 1, b + 1);
    }
  }

  lemma ZerosTokens(finder: Finder, w: seq<word>, h: (word, word) -> Key, j: nat)
    requires j >= 2 && |w| == 4 * j + 10 && forall i | 0 <= i < |w| :: w[i] == 0
    ensures Search(finder, w, h, 2 * |w|).tokens == [Token([0], 4 * j - 1, 1)]
  {
    hide Find, Fill;
    var end := SearchEnd(2 * |w|);
    var st := Begin(w, h);
    BeginIsGood(w, h, end);
    ZerosMatch(finder, w, h, j, st.cdl, st.ht);
    assert w[0..1] == [0];
    var next := Step(finder, w, h, end, st);
    StepKeepsGood(finder, w, h, end, st);
    assert next.pi == end && next.tokens == [Token([0], 4 * j - 1, 1)];
    assert Run(finder, w, h, end, st) == Run(finder, w, h, end, next) == next;
  }

  // ------------------------------------------------------------- unclean memory

  predicate AllOnes(nibs: seq<nibble>) {
    forall i | 0 <= i < |nibs| :: nibs[i] == 15
  }

  /** Bytes of 255 to the end: the length never stops. */
  lemma {:induction false} OnesNeverEnd(nibs: seq<nibble>, c: nat, acc: nat)
    requires AllOnes(nibs)
    ensures ReadRun(nibs, c, acc) == None
    decreases |nibs| - c
  {
    if c + 2 > |nibs| {
    } else {
      OnesNeverEnd(nibs, c + 2, acc + 255);
    }
  }

  lemma OnesHaveNoLength(nibs: seq<nibble>, c: nat)
    requires AllOnes(nibs)
    ensures ReadLength(nibs, c) == None
  {
    if c + 2 <= |nibs| {
      OnesNeverEnd(nibs, c + 2, 30);
    }
  }

  /** A first token whose length runs out. */
  lemma FirstTokenUnread(layout: Layout, S: Streams, inlen: nat, outlen: nat)
    requires |S.dflag| == 2 && S.dflag[0] == 0xC0 && |S.flag| >= 1 && S.flag[0] == 0xE1
    requires |S.chars| >= 1 && AllOnes(S.nibs) && 2 <= inlen <= outlen
    ensures LzDecode.Decode(layout, S, inlen, outlen) == LzDecode.Undefined
  {
    hide AllOnes, ReadLength;
    OnesHaveNoLength(S.nibs, 0);
    var st := LzDecode.Start;
    var st1 := st.(pd := 1);
    assert LzDecode.TakeDistance(S, st) == LzDecode.Go((0xC0, 0, st1));
    if layout == Narrow {
      assert LzDecode.TakeNarrow(S, st, inlen) == LzDecode.Undefined;
    } else {
      assert LzDecode.TakePacked(S, st, inlen) == LzDecode.Undefined;
    }
  }

  lemma OnesOverlaid(mem0: seq<byte>, inlen: nat, base: nat, nibs: seq<nibble>)
    requires 2 * inlen <= base && |nibs| % 2 == 0 && base + |nibs| / 2 <= |mem0|
    requires forall k | base <= k < base + |nibs| / 2 :: mem0[k] == 0xFF
    ensures AllOnes(Overlaid(Opened(mem0, inlen), base, nibs))
  {
    hide Or4;
    var m := Opened(mem0, inlen);
    forall i | 0 <= i < |nibs|
      ensures Overlaid(m, base, nibs)[i] == 15
    {
      assert m[(2 * base + i) / 2] == 0xFF;
      OnesAbsorb(nibs[i]);
    }
  }

  lemma OnesAbsorb(x: nibble)
    ensures Or4(15, x) == 15
  {
    OrStep(15, x);
    OrStep(7, x / 2);
    OrStep(3, x / 2 / 2);
    OrStep(1, x / 2 / 2 / 2);
  }

  lemma ZerosStreams(layout: Layout, finder: Finder, h: (word, word) -> Key, j: nat)
    requires j >= 3
    ensures var S := EncodeStreams(layout, finder, Zeros(8 * j + 20), 0, h);
            |S.dflag| == 2 && S.dflag[0] == 0xC0 && |S.flag| >= 1 && S.flag[0] == 0xE1 && |S.chars| >= 1
  {
    hide Search, Pack, PrintAll, Finish, EncodeStreams;
    var pin := Zeros(8 * j + 20);
    var w := Pack(pin, 0);
    PackZeros(pin);
    ZerosTokens(finder, w, h, j);
    SectionsOf(layout, finder, pin, 0, h);
    OneTokenHead(layout, 4 * j - 1, w[Search(finder, w, h, |pin|).from..]);
  }

  lemma OneTokenHead(layout: Layout, extra: nat, tail: seq<word>)
    requires extra >= 8
    ensures var S := Finish(PrintAll(layout, [Token([0], extra, 1)]), tail);
            |S.dflag| == 2 && S.dflag[0] == 0xC0 && |S.flag| >= 1 && S.flag[0] == 0xE1 && |S.chars| >= 1
  {
    hide LengthCode, TailFlag;
    var t := Token([0], extra, 1);
    assert [t][..0] == [] && PrintAll(layout, []) == Empty;
    assert Print(layout, t).dflag == [0xC0] && Print(layout, t).flag == [0xE1];
    assert PrintAll(layout, [t]).dflag == [] + [0xC0] && PrintAll(layout, [t]).flag == [] + [0xE1];
  }

  /** Zeros into an output of 2.5 times their number, whose memory holds ones where it is not
      cleared: encoding succeeds, decoding the result does not. */
  lemma UncleanMemoryLosesInput(layout: Layout, finder: Finder, h: (word, word) -> Key, pin: seq<byte>, j: nat,
                                outlen: nat, mem0: seq<byte>)
    requires j >= 3 && pin == Zeros(8 * j + 20)
    requires BuffersFit(|pin|, outlen) && IsLarge(|pin|, outlen) && PlacesFor(|pin|, outlen).end <= |mem0|
    requires forall k | 2 * |pin| <= k < PlacesFor(|pin|, outlen).end :: mem0[k] == 0xFF
    ensures var r := EncodeOutcome(layout, finder, pin, 0, h, outlen, mem0);
            r.Encoded? && LzDecode.Decode(layout, r.sections, |pin|, |pin|) == LzDecode.Undefined
  {
    hide EncodeStreams, LzDecode.Decode, Overlaid, Opened, AllOnes, PlacesFor, EncodeOutcome;
    var P := PlacesFor(|pin|, outlen);
    var S := EncodeStreams(layout, finder, pin, 0, h);
    var r := EncodeOutcome(layout, finder, pin, 0, h, outlen, mem0);
    EncodeOutcomeExactly(layout, finder, pin, 0, h, outlen, mem0);
    OutcomeNibbles(layout, finder, pin, 0, h, outlen, mem0);
    ReservesExceed(|pin|, outlen);
    OnesOverlaid(mem0, |pin|, P.o4, S.nibs);
    ZerosStreams(layout, finder, h, j);
    FirstTokenUnread(layout, r.sections, |pin|, |pin|);
  }

  lemma OutcomeNibbles(layout: Layout, finder: Finder, pin: seq<byte>, pad: byte, h: (word, word) -> Key, outlen: nat, mem0: seq<byte>)
    requires BuffersFit(|pin|, outlen) && PlacesFor(|pin|, outlen).end <= |mem0|
    requires EncodeOutcome(layout, finder, pin, pad, h, outlen, mem0).Encoded?
    ensures var S := EncodeStreams(layout, finder, pin, pad, h);
            var P := PlacesFor(|pin|, outlen);
            && 2 * P.o4 + |S.nibs| <= 2 * |mem0|
            && EncodeOutcome(layout, finder, pin, pad, h, outlen, mem0).sections == S.(nibs := Overlaid(Opened(mem0, |pin|), P.o4, S.nibs))
  {
    hide EncodeStreams, Overlaid, Opened;
    SectionsFit(layout, finder, pin, pad, h, IsLarge(|pin|, outlen), 4);
    EncodedIsWhole(layout, finder, pin, pad, h);
  }
}
