/** The match search stated outright: which candidate becomes the match, how long it is, what
    the tables hold afterwards. */
module LzSearch {
  import opened Words
  import opened Tokens
  import opened LzRoundTrip
  import opened LzMatch

  /** The words at `a` and `a + 1` are those at `b` and `b + 1`. */
  ghost predicate Agree(w: seq<word>, a: nat, b: nat)
    requires a + 1 < |w| && b + 1 < |w|
  {
    w[a] == w[b] && w[a + 1] == w[b + 1]
  }

  /** `len` is the length counted for the match of `p` with `m`: up to the first difference
      among the words compared, one short of them when all agree. The comparison takes two
      words and then groups of four as long as a group starts before `end`. */
  ghost predicate Counted(w: seq<word>, m: nat, p: nat, end: int, len: nat)
    requires m < p < end && end + 8 <= |w|
  {
    var n := 2 + 4 * (if end - p <= 6 then 1 else (end - p + 1) / 4);
    && 2 <= len < n
    && Repeats(w, p, p - m, len)
    && (len == n - 1 || w[m + len] != w[p + len])
  }

  lemma ExtraIsCounted(w: seq<word>, m: nat, p: nat, end: int)
    requires m < p < end && end + LIMIT_LEN <= |w| && PairEqual(w, m, p)
    ensures Counted(w, m, p, end, MatchExtra(w, m, p, end) + 2)
  {
    hide PairEqual;
    var c, n := Common(w, m, p), Compared(p, end);
    assert n == 2 + 4 * (if end - p <= 6 then 1 else (end - p + 1) / 4);
    hide Compared;
    assert Repeats(w, p, p - m, c);
    assert forall k | p <= k < p + c :: w[k] == w[k - (p - m)];
  }

  /** There is one length only. */
  lemma CountedOnce(w: seq<word>, m: nat, p: nat, end: int, a: nat, b: nat)
    requires m < p < end && end + 8 <= |w|
    requires Counted(w, m, p, end, a) && Counted(w, m, p, end, b)
    ensures a == b
  {
  }

  /** What the search does at `p`. The table's candidate `m` under the key of the word pair
      counts when it agrees in two words. With two candidates the ring's `r`, in the slot of
      the key and the low bits of the word eight places on, replaces it when it agrees and
      its match is longer, and `p` takes its slot. The one chosen is the match if it is less
      than a megaword away. */
  ghost predicate Searched(finder: Finder, w: seq<word>, h: (word, word) -> Key, p: nat, end: int,
                           ht: seq<nat>, cdl: seq<nat>, hit: Option<(nat, nat)>, ring: seq<nat>)
    requires p < end && end + 8 <= |w|
    requires Below(ht, HASH_SIZE, p) && Below(cdl, RING * HASH_SIZE, p)
  {
    var key: nat := h(w[p], w[p + 1]);
    var s := 4 * key + w[p + 8] % 4;
    var m, r := ht[key], cdl[s];
    if !Agree(w, m, p) then
      hit == None && ring == cdl
    else
      && ring == (if finder == Double then cdl[s := p] else cdl)
      && (if finder == Double && Agree(w, r, p) then LongerTaken(w, m, r, p, end, hit)
          else CountedTaken(w, m, p, end, hit))
  }

  /** The candidate `m` with `len` words is the hit, unless it is too far back. */
  ghost predicate Taken(p: nat, m: nat, len: nat, hit: Option<(nat, nat)>) {
    && (hit.Some? <==> p - m < 0x10_0000)
    && (hit.Some? ==> hit.value.0 == m && hit.value.1 + 2 == len)
  }

  /** One candidate. */
  ghost predicate CountedTaken(w: seq<word>, m: nat, p: nat, end: int, hit: Option<(nat, nat)>)
    requires m < p < end && end + 8 <= |w|
  {
    exists len: nat :: Counted(w, m, p, end, len) && Taken(p, m, len, hit)
  }

  /** Two candidates: the longer one, the table's when they tie. */
  ghost predicate LongerTaken(w: seq<word>, m: nat, r: nat, p: nat, end: int, hit: Option<(nat, nat)>)
    requires m < p < end && r < p && end + 8 <= |w|
  {
    exists a: nat, b: nat :: Counted(w, m, p, end, a) && Counted(w, r, p, end, b)
      && (if b > a then Taken(p, r, b, hit) else Taken(p, m, a, hit))
  }

  lemma NearIsTaken(p: nat, m: nat, extra: nat)
    requires m < p
    ensures Taken(p, m, extra + 2, Near(p, m, extra))
  {
  }

  lemma OneTaken(w: seq<word>, m: nat, p: nat, end: int)
    requires m < p < end && end + LIMIT_LEN <= |w| && PairEqual(w, m, p)
    ensures CountedTaken(w, m, p, end, Near(p, m, MatchExtra(w, m, p, end)))
  {
    hide Counted, Taken, Near, PairEqual, MatchExtra;
    ExtraIsCounted(w, m, p, end);
    NearIsTaken(p, m, MatchExtra(w, m, p, end));
  }

  lemma TwoTaken(w: seq<word>, m: nat, r: nat, p: nat, end: int)
    requires m < p < end && r < p && end + LIMIT_LEN <= |w| && PairEqual(w, m, p) && PairEqual(w, r, p)
    ensures var a, b := MatchExtra(w, m, p, end), MatchExtra(w, r, p, end);
            LongerTaken(w, m, r, p, end, if b > a then Near(p, r, b) else Near(p, m, a))
  {
    hide Counted, Taken, Near, PairEqual, MatchExtra;
    ExtraIsCounted(w, m, p, end);
    ExtraIsCounted(w, r, p, end);
    var a, b := MatchExtra(w, m, p, end), MatchExtra(w, r, p, end);
    NearIsTaken(p, m, a);
    NearIsTaken(p, r, b);
    assert Counted(w, m, p, end, a + 2) && Counted(w, r, p, end, b + 2);
  }

  lemma KeyOf(w: seq<word>, h: (word, word) -> Key, p: nat)
    requires p + 1 < |w|
    ensures KeyAt(w, h, p) == h(w[p], w[p + 1])
  {
  }

  lemma CandidatesBelow(ht: seq<nat>, cdl: seq<nat>, p: nat, key: Key, s: nat)
    requires Below(ht, HASH_SIZE, p) && Below(cdl, RING * HASH_SIZE, p) && s < RING * HASH_SIZE
    ensures |ht| == HASH_SIZE && |cdl| == RING * HASH_SIZE && ht[key] < p && cdl[s] < p
  {
  }

  lemma SlotOf(key: Key, x: word)
    ensures Slot(key, x) == 4 * (key as nat) + x % 4
  {
  }

  /** The search finds every match it can find, and no other. */
  lemma FindExactly(finder: Finder, w: seq<word>, h: (word, word) -> Key, p: nat, end: int, ht: seq<nat>, cdl: seq<nat>)
    requires p < end && end + LIMIT_LEN <= |w|
    requires Below(ht, HASH_SIZE, p) && Below(cdl, RING * HASH_SIZE, p)
    ensures var f := Find(finder, w, h, p, end, ht, cdl);
            Searched(finder, w, h, p, end, ht, cdl, f.hit, f.cdl)
  {
    hide LongerTaken, CountedTaken, MatchExtra, Near, Below, Slot, KeyAt;
    var key := KeyAt(w, h, p);
    KeyOf(w, h, p);
    var s := Slot(key, w[p + 8]);
    SlotOf(key, w[p + 8]);
    CandidatesBelow(ht, cdl, p, key, s);
    var m, r := ht[key], cdl[s];
    assert PairEqual(w, m, p) == Agree(w, m, p) && PairEqual(w, r, p) == Agree(w, r, p);
    hide PairEqual, Agree;
    if PairEqual(w, m, p) {
      OneTaken(w, m, p, end);
      if PairEqual(w, r, p) {
        TwoTaken(w, m, r, p, end);
      }
    }
  }

  /** Completeness: a candidate of the table that agrees and is near enough is found, and
      what is found is no shorter than it, unless a longer one of the ring is too far back. */
  lemma MatchIsFound(finder: Finder, w: seq<word>, h: (word, word) -> Key, p: nat, end: int, ht: seq<nat>, cdl: seq<nat>, len: nat)
    requires p < end && end + 8 <= |w|
    requires Below(ht, HASH_SIZE, p) && Below(cdl, RING * HASH_SIZE, p)
    requires var m := ht[h(w[p], w[p + 1])]; p - m < 0x10_0000 && Agree(w, m, p) && Counted(w, m, p, end, len)
    requires finder == Double ==> var r := cdl[4 * h(w[p], w[p + 1]) + w[p + 8] % 4]; p - r < 0x10_0000 || !Agree(w, r, p)
    ensures var f := Find(finder, w, h, p, end, ht, cdl); f.hit.Some? && f.hit.value.1 + 2 >= len
  {
    hide Counted, Find;
    FindExactly(finder, w, h, p, end, ht, cdl);
    var m := ht[h(w[p], w[p + 1])];
    forall a | Counted(w, m, p, end, a)
      ensures a == len
    {
      CountedOnce(w, m, p, end, a, len);
    }
  }

  // ------------------------------------------------------------------ the tables

  /** `after` is `before` with the positions from `p` up to `q` entered: a key of one of their
      word pairs holds the last such position, every other key what it held. */
  ghost predicate Entered(w: seq<word>, h: (word, word) -> Key, p: nat, q: nat, before: seq<nat>, after: seq<nat>)
    requires q < |w|
  {
    && |after| == |before| == HASH_SIZE
    && forall k: Key :: HoldsLast(w, h, p, q, k, before[k], after[k])
  }

  ghost predicate HoldsLast(w: seq<word>, h: (word, word) -> Key, p: nat, q: nat, k: Key, before: nat, after: nat)
    requires q < |w|
  {
    if exists i :: p <= i < q && KeyAt(w, h, i) == k then
      p <= after < q && KeyAt(w, h, after) == k && forall i | after < i < q :: KeyAt(w, h, i) != k
    else after == before
  }

  lemma {:induction false} FillEnters(ht: seq<nat>, w: seq<word>, h: (word, word) -> Key, p: nat, q: nat)
    requires |ht| == HASH_SIZE && q < |w|
    ensures Entered(w, h, p, q, ht, Fill(ht, w, h, p, q))
    decreases q - p
  {
    hide KeyAt;
    if p >= q {
    } else {
      var key := KeyAt(w, h, p);
      var ht' := ht[key := p];
      var r := Fill(ht', w, h, p + 1, q);
      FillEnters(ht', w, h, p + 1, q);
      forall k: Key
        ensures HoldsLast(w, h, p, q, k, ht[k], r[k])
      {
        assert HoldsLast(w, h, p + 1, q, k, ht'[k], r[k]);
        OneMoreEntered(w, h, p, q, k, ht[k], ht'[k], r[k]);
      }
    }
  }

  lemma OneMoreEntered(w: seq<word>, h: (word, word) -> Key, p: nat, q: nat, k: Key, before: nat, middle: nat, after: nat)
    requires p < q < |w| && middle == (if KeyAt(w, h, p) == k then p else before)
    requires HoldsLast(w, h, p + 1, q, k, middle, after)
    ensures HoldsLast(w, h, p, q, k, before, after)
  {
    hide KeyAt;
    if i :| p + 1 <= i < q && KeyAt(w, h, i) == k {
      assert KeyAt(w, h, i) == k;
    } else if KeyAt(w, h, p) == k {
      assert after == p;
    }
  }

  // -------------------------------------------------------------------- one turn

  /** One turn of the search loop: what was found, the position moved on, the token of a hit,
      and the tables. The positions entered are `pi` and, behind a match, those of its words
      or of one period of it. */
  lemma TurnExactly(finder: Finder, w: seq<word>, h: (word, word) -> Key, end: int, st: EncSt) returns (hit: Option<(nat, nat)>)
    requires Good(w, end, st) && st.pi < end && end + LIMIT_LEN <= |w|
    ensures var next := Step(finder, w, h, end, st);
            && Searched(finder, w, h, st.pi, end, st.ht, st.cdl, hit, next.cdl)
            && (hit == None ==>
                  && next.pi == st.pi + 1 && next.from == st.from && next.tokens == st.tokens
                  && Entered(w, h, st.pi, st.pi + 1, st.ht, next.ht))
            && (hit.Some? ==>
                  var dist, len := st.pi - hit.value.0, hit.value.1 + 2;
                  var n := if len == 2 then 2 else if len > dist then dist else len;
                  && next.pi == next.from == st.pi + len && next.pi < |w| && dist >= 1
                  && next.tokens == st.tokens + [Token(w[st.from..st.pi], len - 2, dist)]
                  && Entered(w, h, st.pi, st.pi + n, st.ht, next.ht))
  {
    hide Find, Searched, Entered, KeyAt, Expand, Valid, Repeats;
    FindExactly(finder, w, h, st.pi, end, st.ht, st.cdl);
    FindIsSound(finder, w, h, st.pi, end, st.ht, st.cdl);
    hit := Find(finder, w, h, st.pi, end, st.ht, st.cdl).hit;
    if hit == None {
      FillEnters(st.ht, w, h, st.pi, st.pi + 1);
      assert Fill(st.ht, w, h, st.pi, st.pi + 1) == st.ht[KeyAt(w, h, st.pi) := st.pi];
    } else {
      FillEnters(st.ht, w, h, st.pi, FillEnd(st.pi, hit.value.1, st.pi - hit.value.0));
    }
  }

  // ------------------------------------------------------------ repeated patterns

  /** The input repeats its first `d` words, whose pairs have different keys. */
  ghost predicate Pattern(w: seq<word>, h: (word, word) -> Key, d: nat)
    requires 1 <= d && d + 1 < |w|
  {
    && (forall k | d <= k < |w| :: w[k] == w[k - d])
    && forall i, j | 0 <= i < j < d :: KeyAt(w, h, i) != KeyAt(w, h, j)
  }

  /** The tables while only the first `p` words have been seen. */
  ghost predicate Fresh(w: seq<word>, h: (word, word) -> Key, p: nat, st: EncSt)
    requires p < |w|
  {
    && st.pi == p && st.from == 0 && st.tokens == []
    && |st.ht| == HASH_SIZE && |st.cdl| == RING * HASH_SIZE
    && (forall k: Key :: HoldsLast(w, h, 0, p, k, 0, st.ht[k]))
    && forall k | 0 <= k < RING * HASH_SIZE :: st.cdl[k] == 0
  }

  lemma BeginIsFresh(w: seq<word>, h: (word, word) -> Key)
    requires |w| >= 2
    ensures Fresh(w, h, 1, Begin(w, h))
  {
    hide KeyAt;
    var ht := seq(HASH_SIZE, _ => 0);
    FillEnters(ht, w, h, 0, 1);
    assert Begin(w, h).ht == Fill(ht, w, h, 0, 1);
    forall k: Key
      ensures HoldsLast(w, h, 0, 1, k, 0, Begin(w, h).ht[k])
    {
      assert HoldsLast(w, h, 0, 1, k, ht[k], Begin(w, h).ht[k]);
    }
  }

  /** Inside the pattern the candidate is position 0, whose words differ. */
  lemma CandidateIsStart(w: seq<word>, h: (word, word) -> Key, d: nat, p: nat, ht: seq<nat>)
    requires d + 1 < |w| && 1 <= p <= d && Pattern(w, h, d)
    requires |ht| == HASH_SIZE && forall k: Key :: HoldsLast(w, h, 0, p, k, 0, ht[k])
    ensures ht[KeyAt(w, h, p)] == 0
    ensures Agree(w, 0, p) <==> p == d
  {
    var key := KeyAt(w, h, p);
    assert HoldsLast(w, h, 0, p, key, 0, ht[key]);
    if p == d {
      assert w[d] == w[d - d] && w[d + 1] == w[d + 1 - d];
      assert key == KeyAt(w, h, 0);
    } else {
      assert forall i | 0 <= i < p :: KeyAt(w, h, i) != key;
      assert KeyAt(w, h, 0) != KeyAt(w, h, p);
    }
  }

  lemma LiteralStaysFresh(finder: Finder, w: seq<word>, h: (word, word) -> Key, d: nat, end: int, st: EncSt)
    requires 1 <= d < end && end + LIMIT_LEN <= |w| && Pattern(w, h, d)
    requires Good(w, end, st) && st.pi < d && Fresh(w, h, st.pi, st)
    ensures Fresh(w, h, st.pi + 1, Step(finder, w, h, end, st))
  {
    hide Pattern, Agree, Find, KeyAt, CountedTaken, LongerTaken, HoldsLast;
    var p := st.pi;
    var next := Step(finder, w, h, end, st);
    CandidateIsStart(w, h, d, p, st.ht);
    KeyOf(w, h, p);
    var hit := TurnExactly(finder, w, h, end, st);
    assert hit == None && next.cdl == st.cdl;
    forall k: Key
      ensures HoldsLast(w, h, 0, p + 1, k, 0, next.ht[k])
    {
      assert HoldsLast(w, h, p, p + 1, k, st.ht[k], next.ht[k]);
      HoldsLastJoins(w, h, 0, p, p + 1, k, 0, st.ht[k], next.ht[k]);
    }
  }

  lemma HoldsLastJoins(w: seq<word>, h: (word, word) -> Key, p: nat, q: nat, r: nat, k: Key, before: nat, middle: nat, after: nat)
    requires p <= q <= r < |w|
    requires HoldsLast(w, h, p, q, k, before, middle) && HoldsLast(w, h, q, r, k, middle, after)
    ensures HoldsLast(w, h, p, r, k, before, after)
  {
    hide KeyAt;
    if i :| q <= i < r && KeyAt(w, h, i) == k {
      assert KeyAt(w, h, i) == k;
    } else if i :| p <= i < q && KeyAt(w, h, i) == k {
      assert KeyAt(w, h, i) == k;
    }
  }

  /** All words compared agree, so the count is one short of them. */
  lemma PatternCounted(w: seq<word>, h: (word, word) -> Key, d: nat, end: int, len: nat)
    requires 1 <= d < end && end + 8 <= |w| && Pattern(w, h, d) && Counted(w, 0, d, end, len)
    ensures len == 4 * (if end - d <= 6 then 1 else (end - d + 1) / 4) + 1
  {
    hide Repeats;
    var n := 2 + 4 * (if end - d <= 6 then 1 else (end - d + 1) / 4);
    if len < n - 1 {
      assert w[d + len] == w[d + len - d];
    }
  }

  lemma PatternIsTaken(finder: Finder, w: seq<word>, h: (word, word) -> Key, d: nat, end: int, st: EncSt)
    requires 1 <= d < 0x10_0000 && d < end && end + LIMIT_LEN <= |w| && Pattern(w, h, d)
    requires Good(w, end, st) && st.pi == d && Fresh(w, h, d, st)
    ensures var len := 4 * (if end - d <= 6 then 1 else (end - d + 1) / 4) + 1;
            Step(finder, w, h, end, st).tokens == [Token(w[..d], len - 2, d)]
  {
    hide Pattern, Agree, Find, KeyAt, Counted, HoldsLast;
    CandidateIsStart(w, h, d, d, st.ht);
    KeyOf(w, h, d);
    var hit := TurnExactly(finder, w, h, end, st);
    assert st.cdl[Slot(KeyAt(w, h, d), w[d + 8])] == 0;
    forall len: nat | Counted(w, 0, d, end, len)
      ensures len == 4 * (if end - d <= 6 then 1 else (end - d + 1) / 4) + 1
    {
      PatternCounted(w, h, d, end, len);
    }
    assert w[0..d] == w[..d];
  }

  /** Tokens are only added. */
  lemma {:induction false} RunExtends(finder: Finder, w: seq<word>, h: (word, word) -> Key, end: int, st: EncSt)
    requires Good(w, end, st) && (st.pi < end ==> end + LIMIT_LEN <= |w|)
    ensures st.tokens <= Run(finder, w, h, end, st).tokens
    decreases end - st.pi
  {
    hide Below, Expand, Valid, Find, Fill, KeyAt;
    if st.pi < end {
      StepKeepsGood(finder, w, h, end, st);
      RunExtends(finder, w, h, end, Step(finder, w, h, end, st));
    }
  }

  lemma {:induction false} PatternFrom(finder: Finder, w: seq<word>, h: (word, word) -> Key, d: nat, end: int, st: EncSt)
    requires 1 <= d < 0x10_0000 && d < end && end + LIMIT_LEN <= |w| && Pattern(w, h, d)
    requires Good(w, end, st) && st.pi <= d && Fresh(w, h, st.pi, st)
    ensures var len := 4 * (if end - d <= 6 then 1 else (end - d + 1) / 4) + 1;
            [Token(w[..d], len - 2, d)] <= Run(finder, w, h, end, st).tokens
    decreases d - st.pi
  {
    hide Pattern, Below, Expand, Valid, Fresh, Step;
    StepKeepsGood(finder, w, h, end, st);
    var next := Step(finder, w, h, end, st);
    if st.pi == d {
      PatternIsTaken(finder, w, h, d, end, st);
      RunExtends(finder, w, h, end, next);
    } else {
      LiteralStaysFresh(finder, w, h, d, end, st);
      FreshAt(w, h, st.pi + 1, next);
      PatternFrom(finder, w, h, d, end, next);
    }
  }

  lemma FreshAt(w: seq<word>, h: (word, word) -> Key, p: nat, st: EncSt)
    requires p < |w| && Fresh(w, h, p, st)
    ensures st.pi == p
  {
  }

  /** A repeated pattern is found at once: the first token holds the pattern as its literals
      and repeats it, one word short of what is compared, up to the end of the search. */
  lemma PatternIsFound(finder: Finder, w: seq<word>, h: (word, word) -> Key, inlen: nat, d: nat)
    requires inlen > LIMIT_LEN && |w| == (inlen + 1) / 2
    requires 1 <= d < 0x10_0000 && d + 8 < inlen / 2 && Pattern(w, h, d)
    ensures var end := inlen / 2 - 8;
            var len := 4 * (if end - d <= 6 then 1 else (end - d + 1) / 4) + 1;
            [Token(w[..d], len - 2, d)] <= Search(finder, w, h, inlen).tokens
  {
    hide Pattern, Good, Fresh, Begin, Run;
    var end := SearchEnd(inlen);
    BeginIsGood(w, h, end);
    BeginIsFresh(w, h);
    FreshAt(w, h, 1, Begin(w, h));
    PatternFrom(finder, w, h, d, end, Begin(w, h));
  }
}
