/** Where the encoder's five sections lie in the output memory, and what the memory holds
    while they are written. */
module LzLayout {
  import opened Words
  import opened Nibbles
  import opened NibbleBuffer
  import opened Tokens
  import opened LzDecode
  import opened LzRoundTrip
  import opened LzCapacity
  import opened LzBytes

  /** Bytes of the two header records in front of the first section. */
  const HEADER := 52

  /** Start of the sections behind the first, and the end of the last one's reserve. */
  datatype Places = Places(o1: nat, o2: nat, o3: nat, o4: nat, end: nat)
  {
    predicate Ordered() {
      HEADER <= o1 <= o2 <= o3 <= o4 <= end
    }

    function Place(i: nat): nat
      requires i < SECTION_COUNT
    {
      if i == 0 then HEADER else if i == 1 then o1 else if i == 2 then o2 else if i == 3 then o3 else o4
    }
  }

  /** The reserves lie one behind the other. Even a literal section that overflows with all
      words of the input stays in front of the nibbles. */
  function Reserve(inlen: nat, large: bool): (P: Places)
    ensures P.Ordered() && HEADER + inlen + 1 <= P.o4
    ensures P.o1 == HEADER + Capacity(0, inlen, large) && P.o2 == P.o1 + Capacity(1, inlen, large)
    ensures P.o3 == P.o2 + Capacity(2, inlen, large) && P.o4 == P.o3 + Capacity(3, inlen, large)
    ensures P.end == P.o4 + Capacity(4, inlen, large)
  {
    var o1 := HEADER + Capacity(0, inlen, large);
    var o2 := o1 + Capacity(1, inlen, large);
    var o3 := o2 + Capacity(2, inlen, large);
    var o4 := o3 + Capacity(3, inlen, large);
    Places(o1, o2, o3, o4, o4 + Capacity(4, inlen, large))
  }

  /** The literals do not run into the section behind them. */
  predicate Fits(P: Places, S: Streams) {
    HEADER + 2 * |S.chars| <= P.o1
  }

  /** What the memory `m` holds when `S` has been written over `init`. The nibbles are or-ed
      over what was there; the other sections are there unless the literals overflowed; the
      memory behind the reserves is untouched. */
  ghost predicate Contents(m: seq<byte>, init: seq<byte>, P: Places, S: Streams) {
    && P.Ordered() && P.end <= |m| == |init|
    && Merged(m, init, P.o4, P.end, S.nibs)
    && (Fits(P, S) ==>
         && At(m, HEADER, BytesOf(S.chars)) && At(m, P.o1, S.dflag)
         && At(m, P.o2, S.dist) && At(m, P.o3, S.flag))
    && forall k | P.end <= k < |m| :: m[k] == init[k]
  }

  // ------------------------------------------------------------ what a store keeps

  /** `m'` differs from `m` only from `lo` up to `hi`. */
  ghost predicate Changed(m: seq<byte>, m': seq<byte>, lo: nat, hi: nat) {
    |m'| == |m| && forall k | 0 <= k < |m| && !(lo <= k < hi) :: m'[k] == m[k]
  }

  /** `m` and `was` agree from `k` on. */
  ghost predicate SameFrom(m: seq<byte>, was: seq<byte>, k: nat) {
    |m| == |was| && forall i | k <= i < |m| :: m[i] == was[i]
  }

  lemma AtKept(m: seq<byte>, m': seq<byte>, lo: nat, hi: nat, c: nat, code: seq<byte>)
    requires Changed(m, m', lo, hi) && At(m, c, code)
    requires c + |code| <= lo || hi <= c
    ensures At(m', c, code)
  {
    assert forall k | c <= k < c + |code| :: m'[k] == m[k];
  }

  lemma AtGrown(m: seq<byte>, m': seq<byte>, lo: nat, hi: nat, c: nat, code: seq<byte>, more: seq<byte>)
    requires Changed(m, m', lo, hi) && At(m, c, code)
    requires lo == c + |code| && At(m', lo, more)
    ensures At(m', c, code + more)
  {
    assert m'[c..lo] == m[c..lo];
    assert m'[c..lo + |more|] == m'[c..lo] + m'[lo..lo + |more|];
  }

  lemma MergedKept(m: seq<byte>, m': seq<byte>, init: seq<byte>, base: nat, end: nat, nibs: seq<nibble>, lo: nat, hi: nat)
    requires Merged(m, init, base, end, nibs) && Changed(m, m', lo, hi) && hi <= base
    ensures Merged(m', init, base, end, nibs)
  {
    hide Or4;
    forall i | 2 * base <= i < 2 * end
      ensures Nib(m', i) == Over(Nib(init, i), nibs, i - 2 * base)
    {
      assert m'[i / 2] == m[i / 2];
      assert Nib(m', i) == Nib(m, i);
    }
  }

  /** A store in front of the nibbles leaves them and the memory behind the reserves. */
  lemma RestKept(m: seq<byte>, m': seq<byte>, init: seq<byte>, P: Places, S: Streams, lo: nat, hi: nat)
    requires Contents(m, init, P, S) && Changed(m, m', lo, hi) && hi <= P.o4
    ensures Merged(m', init, P.o4, P.end, S.nibs)
    ensures forall k | P.end <= k < |m'| :: m'[k] == init[k]
  {
    hide Merged;
    MergedKept(m, m', init, P.o4, P.end, S.nibs, lo, hi);
  }

  lemma CharStored(m: seq<byte>, m': seq<byte>, init: seq<byte>, P: Places, S: Streams, x: word)
    requires Contents(m, init, P, S)
    requires var k := HEADER + 2 * |S.chars|;
             && k + 2 <= P.o4 && Changed(m, m', k, k + 2)
             && m'[k] == x % 0x100 && m'[k + 1] == x / 0x100
    ensures Contents(m', init, P, S.(chars := S.chars + [x]))
  {
    hide Merged, At;
    var k := HEADER + 2 * |S.chars|;
    var S' := S.(chars := S.chars + [x]);
    RestKept(m, m', init, P, S, k, k + 2);
    if Fits(P, S') {
      BytesOfConcat(S.chars, [x]);
      BytesOfOne(x);
      TwoAt(m', k, x % 0x100, x / 0x100);
      AtGrown(m, m', k, k + 2, HEADER, BytesOf(S.chars), [x % 0x100, x / 0x100]);
      AtKept(m, m', k, k + 2, P.o1, S.dflag);
      AtKept(m, m', k, k + 2, P.o2, S.dist);
      AtKept(m, m', k, k + 2, P.o3, S.flag);
    }
  }

  lemma TwoAt(m: seq<byte>, k: nat, x: byte, y: byte)
    requires k + 2 <= |m| && m[k] == x && m[k + 1] == y
    ensures At(m, k, [x, y])
  {
  }

  lemma OneAt(m: seq<byte>, k: nat, x: byte)
    requires k < |m| && m[k] == x
    ensures At(m, k, [x])
  {
  }

  lemma DflagStored(m: seq<byte>, m': seq<byte>, init: seq<byte>, P: Places, S: Streams, x: byte)
    requires Contents(m, init, P, S)
    requires var k := P.o1 + |S.dflag|;
             k < P.o2 && Changed(m, m', k, k + 1) && m'[k] == x
    ensures Contents(m', init, P, S.(dflag := S.dflag + [x]))
  {
    hide Merged, At;
    var k := P.o1 + |S.dflag|;
    RestKept(m, m', init, P, S, k, k + 1);
    if Fits(P, S) {
      OneAt(m', k, x);
      AtGrown(m, m', k, k + 1, P.o1, S.dflag, [x]);
      AtKept(m, m', k, k + 1, HEADER, BytesOf(S.chars));
      AtKept(m, m', k, k + 1, P.o2, S.dist);
      AtKept(m, m', k, k + 1, P.o3, S.flag);
    }
  }

  /** The store may reach further than what counts as written. */
  lemma DistStored(m: seq<byte>, m': seq<byte>, init: seq<byte>, P: Places, S: Streams, b: seq<byte>, hi: nat)
    requires Contents(m, init, P, S)
    requires (Fits(P, S) ==> |S.dflag| <= P.o2 - P.o1)
    requires var k := P.o2 + |S.dist|;
             hi <= P.o3 && Changed(m, m', k, hi) && At(m', k, b)
    ensures Contents(m', init, P, S.(dist := S.dist + b))
  {
    hide Merged, At;
    var k := P.o2 + |S.dist|;
    RestKept(m, m', init, P, S, k, hi);
    if Fits(P, S) {
      AtGrown(m, m', k, hi, P.o2, S.dist, b);
      AtKept(m, m', k, hi, HEADER, BytesOf(S.chars));
      AtKept(m, m', k, hi, P.o1, S.dflag);
      AtKept(m, m', k, hi, P.o3, S.flag);
    }
  }

  lemma FlagStored(m: seq<byte>, m': seq<byte>, init: seq<byte>, P: Places, S: Streams, x: byte)
    requires Contents(m, init, P, S)
    requires Fits(P, S) ==> |S.dflag| <= P.o2 - P.o1 && |S.dist| <= P.o3 - P.o2
    requires var k := P.o3 + |S.flag|;
             k < P.o4 && Changed(m, m', k, k + 1) && m'[k] == x
    ensures Contents(m', init, P, S.(flag := S.flag + [x]))
  {
    hide Merged, At;
    var k := P.o3 + |S.flag|;
    RestKept(m, m', init, P, S, k, k + 1);
    if Fits(P, S) {
      OneAt(m', k, x);
      AtGrown(m, m', k, k + 1, P.o3, S.flag, [x]);
      AtKept(m, m', k, k + 1, HEADER, BytesOf(S.chars));
      AtKept(m, m', k, k + 1, P.o1, S.dflag);
      AtKept(m, m', k, k + 1, P.o2, S.dist);
    }
  }

  /** An or-store among the nibbles leaves the other sections. */
  lemma NibblesStored(m: seq<byte>, m': seq<byte>, init: seq<byte>, P: Places, S: Streams, nibs: seq<nibble>)
    requires Contents(m, init, P, S)
    requires Fits(P, S) ==> |S.dflag| <= P.o2 - P.o1 && |S.dist| <= P.o3 - P.o2 && |S.flag| <= P.o4 - P.o3
    requires Merged(m', init, P.o4, P.end, nibs) && Changed(m, m', P.o4, P.end)
    ensures Contents(m', init, P, S.(nibs := nibs))
  {
    hide Merged, At;
    if Fits(P, S) {
      AtKept(m, m', P.o4, P.end, HEADER, BytesOf(S.chars));
      AtKept(m, m', P.o4, P.end, P.o1, S.dflag);
      AtKept(m, m', P.o4, P.end, P.o2, S.dist);
      AtKept(m, m', P.o4, P.end, P.o3, S.flag);
    }
  }

  /** Nothing written yet. */
  lemma NothingStored(m: seq<byte>, P: Places)
    requires P.Ordered() && P.end <= |m|
    ensures Contents(m, m, P, Empty)
  {
    hide Or4;
  }

  /** Untouched memory counts as zero nibbles or-ed in. */
  lemma ZerosMerged(m: seq<byte>, init: seq<byte>, base: nat, end: nat, nibs: seq<nibble>, zeros: seq<nibble>)
    requires Merged(m, init, base, end, nibs) && |nibs| + |zeros| <= 2 * (end - base)
    requires forall i | 0 <= i < |zeros| :: zeros[i] == 0
    ensures Merged(m, init, base, end, nibs + zeros)
  {
    hide Or4, Nib, Merged;
    MergedBounds(m, init, base, end, nibs);
    forall i | 2 * base <= i < 2 * end
      ensures Nib(m, i) == Over(Nib(m, i), zeros, i - 2 * base - |nibs|)
    {
      OrZero(Nib(m, i));
    }
    MergedMore(m, m, init, base, end, nibs, zeros);
  }

  /** The bytes of the nibble section, and those behind it. */
  lemma NibbleBytes(m: seq<byte>, init: seq<byte>, base: nat, end: nat, nibs: seq<nibble>)
    requires Merged(m, init, base, end, nibs) && |nibs| % 2 == 0
    ensures base + |nibs| / 2 <= end <= |m| && 2 * base + |nibs| <= 2 * |init|
    ensures At(m, base, PackNibbles(Overlaid(init, base, nibs)))
    ensures forall k | base + |nibs| / 2 <= k < end :: m[k] == init[k]
  {
    hide Merged, Overlaid, PackNibbles;
    MergedBounds(m, init, base, end, nibs);
    forall k | 0 <= k < |nibs| / 2
      ensures m[base + k] == PackNibbles(Overlaid(init, base, nibs))[k]
    {
      OverlaidByte(m, init, base, end, nibs, k);
    }
    forall k | base + |nibs| / 2 <= k < end
      ensures m[k] == init[k]
    {
      UntouchedByte(m, init, base, end, nibs, k);
    }
  }

  lemma OverlaidByte(m: seq<byte>, init: seq<byte>, base: nat, end: nat, nibs: seq<nibble>, k: nat)
    requires Merged(m, init, base, end, nibs) && |nibs| % 2 == 0 && k < |nibs| / 2
    ensures m[base + k] == PackNibbles(Overlaid(init, base, nibs))[k]
  {
    hide Or4, Nib, Merged, Overlaid;
    MergedBounds(m, init, base, end, nibs);
    OverlaidNibble(m, init, base, end, nibs, 2 * k);
    OverlaidNibble(m, init, base, end, nibs, 2 * k + 1);
    BothNibbles(m, base + k);
  }

  lemma OverlaidNibble(m: seq<byte>, init: seq<byte>, base: nat, end: nat, nibs: seq<nibble>, j: nat)
    requires Merged(m, init, base, end, nibs) && j < |nibs|
    ensures 2 * base + j < 2 * |m| && 2 * base + |nibs| <= 2 * |init|
    ensures Nib(m, 2 * base + j) == Overlaid(init, base, nibs)[j]
  {
    hide Or4, Nib;
    assert Nib(m, 2 * base + j) == Over(Nib(init, 2 * base + j), nibs, j);
  }

  lemma UntouchedByte(m: seq<byte>, init: seq<byte>, base: nat, end: nat, nibs: seq<nibble>, k: nat)
    requires Merged(m, init, base, end, nibs) && |nibs| % 2 == 0 && base + |nibs| / 2 <= k < end
    ensures m[k] == init[k]
  {
    hide Or4, Nib;
    assert Nib(m, 2 * k) == Nib(init, 2 * k);
    assert Nib(m, 2 * k + 1) == Nib(init, 2 * k + 1);
    BothNibbles(m, k);
    BothNibbles(init, k);
  }

  lemma BothNibbles(m: seq<byte>, k: nat)
    requires k < |m|
    ensures m[k] == Nib(m, 2 * k) + 16 * Nib(m, 2 * k + 1)
  {
  }

  // ------------------------------------------------------------------- moving down

  lemma AtInside(m: seq<byte>, c: nat, code: seq<byte>)
    requires At(m, c, code)
    ensures c + |code| <= |m| && m[c..c + |code|] == code
  {
  }

  lemma ConcatOne(b: seq<byte>)
    ensures Concat([b]) == b
  {
    assert [b][1..] == [];
  }

  lemma {:induction false} ConcatGrows(secs: seq<seq<byte>>, i: nat)
    requires i < |secs|
    ensures Concat(secs[..i + 1]) == Concat(secs[..i]) + secs[i]
    decreases i
  {
    if i == 0 {
      assert secs[..1] == [secs[0]];
      ConcatOne(secs[0]);
    } else {
      ConcatGrows(secs[1..], i - 1);
      assert secs[..i + 1][1..] == secs[1..][..i] && secs[..i][1..] == secs[1..][..i - 1];
    }
  }

  /** Each section ends before the place of the next. */
  ghost predicate Spaced(P: Places, secs: seq<seq<byte>>) {
    && |secs| == SECTION_COUNT
    && forall j | 1 <= j < SECTION_COUNT :: P.Place(j - 1) + |secs[j - 1]| <= P.Place(j)
  }

  /** The first `i` sections lie one right behind the other up to `p`, the others still at
      their places; behind the last one the memory is as it was. */
  ghost predicate Merging(m: seq<byte>, init: seq<byte>, P: Places, secs: seq<seq<byte>>, p: nat, i: nat)
    requires |secs| == SECTION_COUNT && 1 <= i <= SECTION_COUNT
  {
    && p == HEADER + |Concat(secs[..i])| <= P.Place(i - 1) + |secs[i - 1]|
    && At(m, HEADER, Concat(secs[..i]))
    && (forall j | i <= j < SECTION_COUNT :: At(m, P.Place(j), secs[j]))
    && SameFrom(m, init, P.o4 + |secs[4]|)
  }

  lemma StartMerging(m: seq<byte>, init: seq<byte>, P: Places, secs: seq<seq<byte>>)
    requires |secs| == SECTION_COUNT && SameFrom(m, init, P.o4 + |secs[4]|)
    requires forall j | 0 <= j < SECTION_COUNT :: At(m, P.Place(j), secs[j])
    ensures Merging(m, init, P, secs, HEADER + |secs[0]|, 1)
  {
    hide Concat;
    assert secs[..1] == [secs[0]];
    ConcatOne(secs[0]);
  }

  /** Where the next section comes from. */
  lemma NextToMove(m: seq<byte>, init: seq<byte>, P: Places, secs: seq<seq<byte>>, p: nat, i: nat)
    requires Spaced(P, secs) && 1 <= i < SECTION_COUNT && Merging(m, init, P, secs, p, i)
    ensures p <= P.Place(i) && P.Place(i) + |secs[i]| <= |m|
    ensures m[P.Place(i)..P.Place(i) + |secs[i]|] == secs[i]
  {
    hide Concat;
    AtInside(m, P.Place(i), secs[i]);
  }

  /** Section `i` has been copied to `p`, right behind those before it. */
  lemma Moved(m: seq<byte>, m': seq<byte>, init: seq<byte>, P: Places, secs: seq<seq<byte>>, p: nat, i: nat)
    requires Spaced(P, secs) && 1 <= i < SECTION_COUNT && Merging(m, init, P, secs, p, i)
    requires Changed(m, m', p, p + |secs[i]|)
    requires p + |secs[i]| <= |m'| && m'[p..p + |secs[i]|] == secs[i]
    ensures Merging(m', init, P, secs, p + |secs[i]|, i + 1)
  {
    hide Concat;
    ConcatGrows(secs, i);
    if i < 4 {
      LaterPlaces(P, secs, i, 4);
    }
    AtGrown(m, m', p, p + |secs[i]|, HEADER, Concat(secs[..i]), secs[i]);
    forall j | i + 1 <= j < SECTION_COUNT
      ensures At(m', P.Place(j), secs[j])
    {
      LaterPlaces(P, secs, i, j);
      AtKept(m, m', p, p + |secs[i]|, P.Place(j), secs[j]);
    }
  }

  lemma AllMerged(m: seq<byte>, init: seq<byte>, P: Places, secs: seq<seq<byte>>, p: nat)
    requires |secs| == SECTION_COUNT && Merging(m, init, P, secs, p, SECTION_COUNT)
    ensures At(m, HEADER, Concat(secs)) && SameFrom(m, init, P.o4 + |secs[4]|)
  {
    assert secs[..SECTION_COUNT] == secs;
  }

  lemma {:induction false} LaterPlaces(P: Places, secs: seq<seq<byte>>, i: nat, j: nat)
    requires Spaced(P, secs) && i < j < SECTION_COUNT
    ensures P.Place(i) + |secs[i]| <= P.Place(j)
    decreases j
  {
    if i + 1 < j {
      LaterPlaces(P, secs, i, j - 1);
    }
  }
}
