/** The match search of the LZ16 encoders, for an arbitrary hash of two words: what it
    finds is always a true match, so the tokens mean the input. */
module LzMatch {
  import opened Words
  import opened Tokens
  import opened LzRoundTrip
  import opened LzDecode

  const HASH_SIZE := 0x10_0000
  const RING := 4

  type Key = k: nat | k < HASH_SIZE

  /** Levels 1 and 2 keep one candidate per key, levels 3 and 4 four more, selected by the
      word eight places on. */
  datatype Finder = Single | Double

  function KeyAt(w: seq<word>, h: (word, word) -> Key, p: nat): Key
    requires p + 1 < |w|
  {
    h(w[p], w[p + 1])
  }

  predicate PairEqual(w: seq<word>, a: nat, b: nat)
    requires a + 1 < |w| && b + 1 < |w|
  {
    w[a] == w[b] && w[a + 1] == w[b + 1]
  }

  /** The `len` words from `p` on repeat the words `dist` places before them. */
  ghost predicate Repeats(w: seq<word>, p: nat, dist: nat, len: nat)
    requires dist <= p && p + len <= |w|
  {
    forall k | p <= k < p + len :: w[k] == w[k - dist]
  }

  // ---------------------------------------------------------------- match length

  /** How many words agree from `a` and from `b` on. */
  function Common(w: seq<word>, a: nat, b: nat): (n: nat)
    requires a <= b <= |w|
    ensures b + n <= |w|
    ensures Repeats(w, b, b - a, n)
    ensures b + n < |w| ==> w[a + n] != w[b + n]
    decreases |w| - b
  {
    if b == |w| || w[a] != w[b] then 0 else 1 + Common(w, a + 1, b + 1)
  }

  /** How many words the counting loop looks at, at most: two, and then whole groups of
      four as long as a group starts before `end`. */
  function Compared(p: nat, end: int): (n: nat)
    requires p < end
    ensures n % 4 == 2 && 6 <= n && p + n >= end
    ensures n == 6 || p + n < end + 4
  {
    2 + 4 * (if end <= p + 6 then 1 else (end - p - 2 + 3) / 4)
  }

  /** Words matched beyond the first two: exact when a difference stopped the loop, one
      short of the words compared otherwise. */
  function MatchExtra(w: seq<word>, m: nat, p: nat, end: int): (extra: nat)
    requires m < p < end && p + 1 < |w| && PairEqual(w, m, p)
    ensures extra + 2 <= Common(w, m, p)
    ensures p + extra + 2 <= end + 4
    ensures Common(w, m, p) < Compared(p, end) ==> extra + 2 == Common(w, m, p)
    ensures Common(w, m, p) >= Compared(p, end) ==> extra + 3 == Compared(p, end)
  {
    assert Common(w, m, p) == 1 + Common(w, m + 1, p + 1);
    var c, n := Common(w, m, p), Compared(p, end);
    (if c < n then c else n - 1) - 2
  }

  // ---------------------------------------------------------------------- search

  /** A hit is the position of the match and its extra length. */
  datatype Found = Found(cdl: seq<nat>, hit: Option<(nat, nat)>)

  ghost predicate Below(table: seq<nat>, size: nat, p: nat) {
    |table| == size && forall k | 0 <= k < size :: table[k] < p
  }

  function Slot(key: Key, x: word): (s: nat)
    ensures s < RING * HASH_SIZE
  {
    RING * key + x % RING
  }

  /** The candidates at `p`: the hash table's, and with `Double` the ring's if longer. */
  function Find(finder: Finder, w: seq<word>, h: (word, word) -> Key, p: nat, end: int, ht: seq<nat>, cdl: seq<nat>): Found
    requires p < end && end + LIMIT_LEN <= |w|
    requires Below(ht, HASH_SIZE, p) && Below(cdl, RING * HASH_SIZE, p)
  {
    var key := KeyAt(w, h, p);
    var m := ht[key];
    if !PairEqual(w, m, p) then Found(cdl, None)
    else
      var extra := MatchExtra(w, m, p, end);
      if finder == Single then Found(cdl, Near(p, m, extra))
      else
        var s := Slot(key, w[p + 8]);
        var pm := cdl[s];
        var cdl' := cdl[s := p];
        if !PairEqual(w, pm, p) then Found(cdl', Near(p, m, extra))
        else
          var n := MatchExtra(w, pm, p, end);
          Found(cdl', if n > extra then Near(p, pm, n) else Near(p, m, extra))
  }

  /** A candidate too far back is no match. */
  function Near(p: nat, m: nat, extra: nat): Option<(nat, nat)> {
    if p - m >= MATCH_OFFSET_MAX then None else Some((m, extra))
  }

  /** Whatever the tables and the hash say, a hit is a true match that ends four words
      before the end of the input or earlier. */
  lemma FindIsSound(finder: Finder, w: seq<word>, h: (word, word) -> Key, p: nat, end: int, ht: seq<nat>, cdl: seq<nat>)
    requires p < end && end + LIMIT_LEN <= |w|
    requires Below(ht, HASH_SIZE, p) && Below(cdl, RING * HASH_SIZE, p)
    ensures var f := Find(finder, w, h, p, end, ht, cdl);
            && Below(f.cdl, RING * HASH_SIZE, p + 1)
            && (f.hit.Some? ==>
                 var (m, extra) := f.hit.value;
                 && m < p && p - m < MATCH_OFFSET_MAX
                 && p + extra + 2 <= end + 4
                 && Repeats(w, p, p - m, extra + 2))
  {
  }

  // ------------------------------------------------------------------ table fill

  /** Enter positions `p` to `q - 1` in order. */
  function Fill(ht: seq<nat>, w: seq<word>, h: (word, word) -> Key, p: nat, q: nat): (r: seq<nat>)
    requires |ht| == HASH_SIZE && q < |w|
    ensures |r| == HASH_SIZE
    decreases q - p
  {
    if p >= q then ht else Fill(ht[KeyAt(w, h, p) := p], w, h, p + 1, q)
  }

  lemma {:induction false} FillBelow(ht: seq<nat>, w: seq<word>, h: (word, word) -> Key, p: nat, q: nat, n: nat)
    requires Below(ht, HASH_SIZE, n) && q < |w| && q <= n
    ensures Below(Fill(ht, w, h, p, q), HASH_SIZE, n)
    decreases q - p
  {
    if p >= q {
    } else {
      FillBelow(ht[KeyAt(w, h, p) := p], w, h, p + 1, q, n);
    }
  }

  /** Positions entered after a hit of `len` words at distance `dist`. */
  function FillEnd(p: nat, extra: nat, dist: nat): nat {
    if extra == 0 then p + 2 else p + (if extra + 2 > dist then dist else extra + 2)
  }

  /** The keys of the word pairs in `[p, q)`. */
  ghost function Keys(w: seq<word>, h: (word, word) -> Key, p: nat, q: nat): set<Key>
    requires q < |w|
  {
    set i | p <= i < q :: KeyAt(w, h, i)
  }

  /** A match makes the data periodic, so every pair inside it repeats one of the first
      `dist` pairs. */
  lemma {:induction false} PairRepeats(w: seq<word>, h: (word, word) -> Key, p: nat, dist: nat, len: nat, i: nat) returns (j: nat)
    requires 1 <= dist <= p && p + len < |w| && p <= i && i + 1 < p + len
    requires Repeats(w, p, dist, len)
    ensures p <= j < p + dist && j <= i
    ensures KeyAt(w, h, j) == KeyAt(w, h, i)
    decreases i
  {
    if i < p + dist {
      j := i;
    } else {
      assert w[i] == w[i - dist] && w[i + 1] == w[i + 1 - dist];
      j := PairRepeats(w, h, p, dist, len, i - dist);
    }
  }

  /** Filling in `min(len, dist)` positions instead of all positions of the match misses no
      key; for an overlapping match the keys are exactly those of the whole match. */
  lemma ShortFillCoversMatch(w: seq<word>, h: (word, word) -> Key, p: nat, dist: nat, len: nat)
    requires 1 <= dist <= p && 2 <= len && p + len < |w|
    requires Repeats(w, p, dist, len)
    ensures var n := if len > dist then dist else len;
            && Keys(w, h, p, p + len - 1) <= Keys(w, h, p, p + n)
            && (len > dist ==> Keys(w, h, p, p + len - 1) == Keys(w, h, p, p + n))
  {
    var n := if len > dist then dist else len;
    forall i | p <= i < p + len - 1
      ensures KeyAt(w, h, i) in Keys(w, h, p, p + n)
    {
      var j := PairRepeats(w, h, p, dist, len, i);
      assert KeyAt(w, h, j) in Keys(w, h, p, p + n);
    }
  }

  // --------------------------------------------------------------------- encoder

  datatype EncSt = EncSt(pi: nat, from: nat, ht: seq<nat>, cdl: seq<nat>, tokens: seq<Token>)

  function Step(finder: Finder, w: seq<word>, h: (word, word) -> Key, end: int, st: EncSt): EncSt
    requires st.from <= st.pi < end && end + LIMIT_LEN <= |w|
    requires Below(st.ht, HASH_SIZE, st.pi) && Below(st.cdl, RING * HASH_SIZE, st.pi)
  {
    var f := Find(finder, w, h, st.pi, end, st.ht, st.cdl);
    var ht := st.ht[KeyAt(w, h, st.pi) := st.pi];
    match f.hit
    case None => EncSt(st.pi + 1, st.from, ht, f.cdl, st.tokens)
    case Some((m, extra)) =>
      FindIsSound(finder, w, h, st.pi, end, st.ht, st.cdl);
      var next := st.pi + extra + 2;
      EncSt(next, next, Fill(ht, w, h, st.pi + 1, FillEnd(st.pi, extra, st.pi - m)), f.cdl,
            st.tokens + [Token(w[st.from..st.pi], extra, st.pi - m)])
  }

  /** What holds at every turn of the search loop. */
  ghost predicate Good(w: seq<word>, end: int, st: EncSt) {
    && 1 <= st.pi && st.from <= st.pi <= |w|
    && Below(st.ht, HASH_SIZE, st.pi) && Below(st.cdl, RING * HASH_SIZE, st.pi)
    && Valid(st.tokens) && Expand(st.tokens) == w[..st.from]
    && (st.tokens != [] ==> st.from <= end + 4)
    && (st.pi <= end + 4 || st.tokens == [])
  }

  /** Copying a true match reproduces the input. */
  lemma {:induction false} CopyIsInput(w: seq<word>, p: nat, dist: nat, len: nat)
    requires 1 <= dist <= p && p + len <= |w|
    requires Repeats(w, p, dist, len)
    ensures CopyMatch(w[..p], dist, len) == w[..p + len]
    decreases len
  {
    if len == 0 {
    } else {
      CopyIsInput(w, p, dist, len - 1);
      assert w[..p + len] == w[..p + len - 1] + [w[p + len - 1]];
    }
  }

  lemma StepKeepsGood(finder: Finder, w: seq<word>, h: (word, word) -> Key, end: int, st: EncSt)
    requires Good(w, end, st) && st.pi < end && end + LIMIT_LEN <= |w|
    ensures Good(w, end, Step(finder, w, h, end, st))
    ensures st.pi < Step(finder, w, h, end, st).pi
  {
    hide Find, Fill, FillEnd, CopyMatch, Repeats, KeyAt, Expand, Valid;
    FindIsSound(finder, w, h, st.pi, end, st.ht, st.cdl);
    if Find(finder, w, h, st.pi, end, st.ht, st.cdl).hit.Some? {
      HitKeepsGood(finder, w, h, end, st);
    } else {
      EnteredBelow(st.ht, KeyAt(w, h, st.pi), st.pi);
    }
  }

  lemma EnteredBelow(ht: seq<nat>, key: Key, p: nat)
    requires Below(ht, HASH_SIZE, p)
    ensures Below(ht[key := p], HASH_SIZE, p + 1)
  {
  }

  lemma HitKeepsGood(finder: Finder, w: seq<word>, h: (word, word) -> Key, end: int, st: EncSt)
    requires Good(w, end, st) && st.pi < end && end + LIMIT_LEN <= |w|
    requires Find(finder, w, h, st.pi, end, st.ht, st.cdl).hit.Some?
    ensures Good(w, end, Step(finder, w, h, end, st))
    ensures st.pi < Step(finder, w, h, end, st).pi
  {
    hide Find, Fill, FillEnd, CopyMatch, Repeats, KeyAt, Expand, Valid;
    var f := Find(finder, w, h, st.pi, end, st.ht, st.cdl);
    var key := KeyAt(w, h, st.pi);
    var (m, extra) := f.hit.value;
    FindIsSound(finder, w, h, st.pi, end, st.ht, st.cdl);
    EnteredBelow(st.ht, key, st.pi);
    FillStaysBelow(st.ht[key := st.pi], w, h, st.pi, extra, st.pi - m);
    TokenMeansInput(w, st.from, st.pi, extra, st.pi - m, st.tokens);
  }

  lemma FillStaysBelow(ht: seq<nat>, w: seq<word>, h: (word, word) -> Key, p: nat, extra: nat, dist: nat)
    requires Below(ht, HASH_SIZE, p + 1) && p + extra + 2 < |w| && dist >= 1
    ensures FillEnd(p, extra, dist) <= p + extra + 2
    ensures Below(Fill(ht, w, h, p + 1, FillEnd(p, extra, dist)), HASH_SIZE, p + extra + 2)
  {
    FillBelow(ht, w, h, p + 1, FillEnd(p, extra, dist), p + extra + 2);
  }

  /** Appending the token of a true match extends the meaning by exactly the input it covers. */
  lemma TokenMeansInput(w: seq<word>, from: nat, p: nat, extra: nat, dist: nat, ts: seq<Token>)
    requires from <= p && 1 <= dist <= p && dist < MATCH_OFFSET_MAX && p + extra + 2 <= |w|
    requires Valid(ts) && Expand(ts) == w[..from]
    requires Repeats(w, p, dist, extra + 2)
    ensures var ts' := ts + [Token(w[from..p], extra, dist)];
            Valid(ts') && Expand(ts') == w[..p + extra + 2]
  {
    hide CopyMatch, Repeats;
    var t := Token(w[from..p], extra, dist);
    var ts' := ts + [t];
    assert ts'[..|ts|] == ts && ts'[|ts|] == t;
    assert w[..from] + w[from..p] == w[..p];
    CopyIsInput(w, p, dist, extra + 2);
  }

  /** The search loop. */
  function Run(finder: Finder, w: seq<word>, h: (word, word) -> Key, end: int, st: EncSt): (r: EncSt)
    requires Good(w, end, st) && (st.pi < end ==> end + LIMIT_LEN <= |w|)
    ensures Good(w, end, r) && r.pi >= end
    decreases end - st.pi
  {
    if st.pi >= end then st
    else
      StepKeepsGood(finder, w, h, end, st);
      Run(finder, w, h, end, Step(finder, w, h, end, st))
  }

  /** Before the loop: position 0 entered, the first word taken as a literal. */
  function Begin(w: seq<word>, h: (word, word) -> Key): EncSt
    requires |w| >= 2
  {
    var ht := seq(HASH_SIZE, _ => 0);
    EncSt(1, 0, ht[KeyAt(w, h, 0) := 0], seq(RING * HASH_SIZE, _ => 0), [])
  }

  lemma BeginIsGood(w: seq<word>, h: (word, word) -> Key, end: int)
    requires |w| >= 2
    ensures Good(w, end, Begin(w, h))
  {
    assert w[..0] == [];
  }

  /** End of the search for an input of `inlen` bytes: eight whole words before its end,
      which is before its start for the shortest inputs. */
  function SearchEnd(inlen: nat): int {
    inlen / 2 - LIMIT_LEN
  }

  /** All tokens of an input, and the position from which the last block copies it. */
  function Search(finder: Finder, w: seq<word>, h: (word, word) -> Key, inlen: nat): (r: EncSt)
    requires inlen > LIMIT_LEN && |w| == (inlen + 1) / 2
    ensures Good(w, SearchEnd(inlen), r)
  {
    BeginIsGood(w, h, SearchEnd(inlen));
    Run(finder, w, h, SearchEnd(inlen), Begin(w, h))
  }

  function EncodeStreams(layout: Layout, finder: Finder, pin: seq<byte>, pad: byte, h: (word, word) -> Key): Streams
    requires |pin| > LIMIT_LEN
  {
    var w := Pack(pin, pad);
    var st := Search(finder, w, h, |pin|);
    ValidIsPrintable(st.tokens);
    Finish(PrintAll(layout, st.tokens), w[st.from..])
  }

  /** The LZ16 round trip: for every input longer than eight bytes, every padding byte, every
      hash function, both searches and both layouts, decoding the sections returns the input. */
  lemma Lz16RoundTrip(layout: Layout, finder: Finder, pin: seq<byte>, pad: byte, h: (word, word) -> Key, outlen: nat)
    requires LIMIT_LEN < |pin| <= outlen
    ensures Decode(layout, EncodeStreams(layout, finder, pin, pad, h), |pin|, outlen) == Go(pin)
  {
    var w := Pack(pin, pad);
    var st := Search(finder, w, h, |pin|);
    ValidIsPrintable(st.tokens);
    RestIsLong(w, |pin|, st);
    assert w[..st.from] + w[st.from..] == w;
    SectionsRoundTrip(layout, st.tokens, w[st.from..], pin, pad, outlen);
  }

  /** At least three whole words are left for the last block, and four after a token. */
  lemma RestIsLong(w: seq<word>, inlen: nat, st: EncSt)
    requires inlen > LIMIT_LEN && |w| == (inlen + 1) / 2
    requires Good(w, SearchEnd(inlen), st)
    ensures st.tokens != [] ==> st.from + 4 <= inlen / 2
    ensures st.tokens == [] ==> st.from == 0
    ensures st.from < |w|
  {
    if st.tokens == [] {
      assert |w[..st.from]| == 0;
    }
  }
}
