/** The LZ16 encoders as they run: hash tables updated in place, literals and tokens sent to
    the sections as they are found. */
module LzEncoder {
  import opened Words
  import opened Nibbles
  import opened Tokens
  import opened LzRoundTrip
  import opened LzMatch
  import opened LzSearch
  import opened LzCapacity
  import opened LzBytes
  import opened NibbleBuffer
  import opened LzLayout
  import opened LzSections
  import opened LzOutput
  import LzDecode
  import MatchCount

  /** What the sections hold in mid-loop: all tokens, and the literals of the next one. */
  function Pending(layout: Layout, ts: seq<Token>, lits: seq<word>): Streams
    requires Printable(ts)
  {
    var P := PrintAll(layout, ts);
    P.(chars := P.chars + lits)
  }

  /** myWriteMatchtoHash: enter the positions from `p` up to `q`. */
  method FillTable(ht: array<nat>, w: seq<word>, h: (word, word) -> Key, p: nat, q: nat)
    requires ht.Length == HASH_SIZE && q < |w|
    modifies ht
    ensures ht[..] == Fill(old(ht[..]), w, h, p, q)
    ensures Entered(w, h, p, q, old(ht[..]), ht[..])
  {
    FillEnters(ht[..], w, h, p, q);
    hide Entered;
    var i := p;
    while i < q
      invariant Fill(ht[..], w, h, i, q) == Fill(old(ht[..]), w, h, p, q)
      decreases q - i
    {
      ht[KeyAt(w, h, i)] := i;
      i := i + 1;
    }
  }

  /** The search at `p`: candidate from the hash table, with `Double` a second one from the
      ring, and `p` entered in both. */
  method FindMatch(finder: Finder, w: seq<word>, h: (word, word) -> Key, p: nat, end: int, ht: array<nat>, cdl: array<nat>)
    returns (hit: Option<(nat, nat)>)
    requires p < end && end + LIMIT_LEN <= |w| && ht != cdl
    requires Below(ht[..], HASH_SIZE, p) && Below(cdl[..], RING * HASH_SIZE, p)
    modifies ht, cdl
    ensures ht[..] == old(ht[..])[KeyAt(w, h, p) := p]
    ensures Found(cdl[..], hit) == Find(finder, w, h, p, end, old(ht[..]), old(cdl[..]))
    ensures Searched(finder, w, h, p, end, old(ht[..]), old(cdl[..]), hit, cdl[..])
  {
    FindExactly(finder, w, h, p, end, ht[..], cdl[..]);
    hide Searched;
    var key := KeyAt(w, h, p);
    var m := ht[key];
    assert m == ht[..][key] < p;
    ht[key] := p;
    if !PairEqual(w, m, p) { return None; }
    var extra := MatchCount.CharEqCount(w, p, m, end);
    if finder == Double {
      var s := Slot(key, w[p + 8]);
      var pm := cdl[s];
      assert pm == cdl[..][s] < p;
      cdl[s] := p;
      if PairEqual(w, pm, p) {
        var n := MatchCount.CharEqCount(w, p, pm, end);
        if n > extra {
          m, extra := pm, n;
        }
      }
    }
    if p - m >= MATCH_OFFSET_MAX { return None; }
    return Some((m, extra));
  }

  /** The sections lie where the encoder puts them. */
  ghost predicate Placed(s: Sections, inlen: nat, large: bool) {
    s.P == Reserve(inlen, large)
  }

  /** Output memory and tables are different memory. */
  ghost predicate Apart(s: Sections, ht: array<nat>, cdl: array<nat>) {
    var mem: object := s.mem;
    ht != cdl && mem != ht && mem != cdl
  }

  /** Room for the token that extends `ts`, whatever its shape. */
  lemma TokenHasRoom(layout: Layout, ts: seq<Token>, t: Token, s: Sections, inlen: nat, large: bool)
    requires Placed(s, inlen, large)
    requires Valid(ts + [t]) && Printable(ts + [t]) && Printable(ts)
    requires |Expand(ts + [t])| + 4 <= inlen / 2
    requires s.out.dflag == PrintAll(layout, ts).dflag && s.out.dist == PrintAll(layout, ts).dist
    requires s.out.flag == PrintAll(layout, ts).flag && s.out.nibs == PrintAll(layout, ts).nibs
    ensures s.Room(Print(layout, t))
  {
    TokensBefore(layout, ts, t);
    hide Print, Expand, PrintAll, Capacity, Valid;
    RoomForToken(s.out, Print(layout, t), |Expand(ts + [t])|, |ts|, inlen, large);
  }

  lemma TokensBefore(layout: Layout, ts: seq<Token>, t: Token)
    requires Valid(ts + [t]) && Printable(ts + [t]) && Printable(ts)
    ensures var P := PrintAll(layout, ts);
            |P.dflag| == |ts| && |P.dist| <= 2 * (|ts| + 1) && |P.flag| <= |ts| + 1
            && |P.nibs| + |Print(layout, t).nibs| <= |Expand(ts + [t])| && 2 * (|ts| + 1) <= |Expand(ts + [t])|
  {
    TokensSize(layout, ts + [t]);
    LastPrinted(layout, ts, t);
    hide Print, Expand, PrintAll, Valid;
  }

  lemma LastPrinted(layout: Layout, ts: seq<Token>, t: Token)
    requires Printable(ts + [t]) && Printable(ts)
    ensures PrintAll(layout, ts + [t]) == PrintAll(layout, ts).Plus(Print(layout, t)) && |Print(layout, t).dflag| == 1
  {
    hide LengthCode, RestFlag, RestBytes;
    assert (ts + [t])[..|ts|] == ts;
  }

  lemma RoomForToken(Q: Streams, F: Streams, words: nat, tokens: nat, inlen: nat, large: bool)
    requires |Q.dflag| == tokens && |Q.dist| <= 2 * (tokens + 1) && |Q.flag| <= tokens + 1
    requires |Q.nibs| + |F.nibs| <= words && 2 * (tokens + 1) <= words && words + 4 <= inlen / 2
    ensures |Q.dflag| < Capacity(1, inlen, large) && |Q.dist| + 4 <= Capacity(2, inlen, large)
    ensures |Q.flag| < Capacity(3, inlen, large) && |Q.nibs| + |F.nibs| + 2 <= 2 * Capacity(4, inlen, large)
  {
  }

  /** One token goes out: literals so far, extra length, distance. */
  method EmitToken(layout: Layout, s: Sections, ghost ts: seq<Token>, ghost lits: seq<word>, charlen: nat, extra: nat, dist: nat)
    requires s.Valid() && Printable(ts) && 1 <= dist < MATCH_OFFSET_MAX && charlen == |lits|
    requires s.out == Pending(layout, ts, lits) && s.Room(Print(layout, Token(lits, extra, dist)))
    modifies s, s.mem
    ensures s.Valid()
    ensures Printable(ts + [Token(lits, extra, dist)])
    ensures s.out == PrintAll(layout, ts + [Token(lits, extra, dist)])
  {
    hide PrintNarrow, PrintPacked;
    ghost var t := Token(lits, extra, dist);
    assert (ts + [t])[..|ts|] == ts;
    if layout == Narrow {
      s.EmitNarrow(charlen, extra, dist);
    } else {
      s.EmitPacked(charlen, extra, dist);
    }
    NoCharsOfShape(layout, charlen, extra, dist);
  }

  lemma NoCharsOfShape(layout: Layout, n: nat, extra: nat, dist: nat)
    requires 1 <= dist < MATCH_OFFSET_MAX
    ensures PrintNarrow(n, extra, dist).chars == [] && PrintPacked(n, extra, dist).chars == []
  {
  }

  /** The program's variables agree with the state `st` of the search. */
  ghost predicate Agrees(layout: Layout, w: seq<word>, st: EncSt, s: Sections, ht: seq<nat>, cdl: seq<nat>)
    reads s, s.mem
  {
    && s.Valid() && st.from <= st.pi <= |w|
    && ht == st.ht && cdl == st.cdl
    && Printable(st.tokens)
    && s.out == Pending(layout, st.tokens, w[st.from..st.pi])
  }

  lemma AgreesOnTables(layout: Layout, w: seq<word>, st: EncSt, s: Sections, ht: seq<nat>, cdl: seq<nat>)
    requires Agrees(layout, w, st, s, ht, cdl)
    ensures ht == st.ht && cdl == st.cdl && st.from <= st.pi <= |w|
  {
  }

  /** No match at `st.pi`: its word becomes a literal. */
  method TakeLiteral(layout: Layout, w: seq<word>, s: Sections, ghost st: EncSt, ghost next: EncSt, pi: nat,
                     ghost inlen: nat, ghost large: bool)
    requires Agrees(layout, w, st, s, st.ht, st.cdl) && pi == st.pi < |w| == (inlen + 1) / 2
    requires Placed(s, inlen, large)
    requires next == EncSt(st.pi + 1, st.from, next.ht, next.cdl, st.tokens)
    requires |PrintAll(layout, st.tokens).chars| + st.pi - st.from < |w|
    modifies s, s.mem
    ensures Agrees(layout, w, next, s, next.ht, next.cdl)
  {
    hide PrintAll;
    s.PutChar(w[pi]);
    assert w[st.from..st.pi + 1] == w[st.from..st.pi] + [w[st.pi]];
    assert PrintAll(layout, st.tokens).chars + w[st.from..st.pi] + [w[st.pi]]
        == PrintAll(layout, st.tokens).chars + w[st.from..st.pi + 1];
  }

  /** A match at `st.pi`: the token goes out and the literals start again behind it. */
  method TakeMatch(layout: Layout, w: seq<word>, s: Sections, ghost st: EncSt, ghost next: EncSt, end: int,
                   pi: nat, charlen: nat, extra: nat, dist: nat, ghost inlen: nat, ghost large: bool)
    requires Agrees(layout, w, st, s, st.ht, st.cdl) && charlen == st.pi - st.from && pi == st.pi
    requires Good(w, end, next) && end == SearchEnd(inlen)
    requires next.pi == next.from == pi + extra + 2
    requires next.tokens == st.tokens + [Token(w[st.from..pi], extra, dist)]
    requires Placed(s, inlen, large)
    modifies s, s.mem
    ensures Agrees(layout, w, next, s, next.ht, next.cdl)
  {
    hide PrintAll, Print, Expand, PrintNarrow, PrintPacked;
    ghost var t := Token(w[st.from..pi], extra, dist);
    ValidIsPrintable(next.tokens);
    assert next.tokens[|st.tokens|] == t;
    TokenHasRoom(layout, st.tokens, t, s, inlen, large);
    EmitToken(layout, s, st.tokens, w[st.from..pi], charlen, extra, dist);
    assert w[next.from..next.pi] == [];
    assert PrintAll(layout, next.tokens).chars + [] == PrintAll(layout, next.tokens).chars;
  }

  /** One turn of the search loop. */
  method EncodeTurn(layout: Layout, finder: Finder, w: seq<word>, h: (word, word) -> Key, end: int, s: Sections,
                    ht: array<nat>, cdl: array<nat>, pi: nat, charlen: nat,
                    ghost inlen: nat, ghost large: bool, ghost st: EncSt)
    returns (pi': nat, charlen': nat)
    requires Good(w, end, st) && st.pi < end && end == SearchEnd(inlen) && |w| == (inlen + 1) / 2
    requires Agrees(layout, w, st, s, ht[..], cdl[..]) && pi == st.pi && charlen == st.pi - st.from
    requires Placed(s, inlen, large) && Apart(s, ht, cdl)
    modifies s, s.mem, ht, cdl
    ensures var next := Step(finder, w, h, end, st);
            && Agrees(layout, w, next, s, ht[..], cdl[..])
            && pi' == next.pi && charlen' == next.pi - next.from
  {
    hide PrintAll, Expand, Find, Fill, Agrees, Placed, Searched, Entered;
    AgreesOnTables(layout, w, st, s, ht[..], cdl[..]);
    ghost var next := Step(finder, w, h, end, st);
    StepKeepsGood(finder, w, h, end, st);
    ValidIsPrintable(st.tokens);
    LiteralsFit(layout, w, end, st);
    var hit := FindMatch(finder, w, h, pi, end, ht, cdl);
    if hit == None {
      TakeLiteral(layout, w, s, st, next, pi, inlen, large);
      pi', charlen' := pi + 1, charlen + 1;
    } else {
      var (m, extra) := hit.value;
      FindIsSound(finder, w, h, pi, end, st.ht, st.cdl);
      FillTable(ht, w, h, pi + 1, FillEnd(pi, extra, pi - m));
      TakeMatch(layout, w, s, st, next, end, pi, charlen, extra, pi - m, inlen, large);
      pi', charlen' := pi + extra + 2, 0;
    }
  }

  lemma LiteralsFit(layout: Layout, w: seq<word>, end: int, st: EncSt)
    requires Good(w, end, st) && Printable(st.tokens) && st.pi < |w|
    ensures |PrintAll(layout, st.tokens).chars| + st.pi - st.from < |w|
  {
    TokensSize(layout, st.tokens);
  }

  /** The search loop. */
  method EncodeLoop(layout: Layout, finder: Finder, w: seq<word>, h: (word, word) -> Key, end: int, s: Sections,
                    ht: array<nat>, cdl: array<nat>, pi0: nat, charlen0: nat,
                    ghost inlen: nat, ghost large: bool, ghost st0: EncSt)
    returns (pi: nat, charlen: nat)
    requires Good(w, end, st0) && end == SearchEnd(inlen) && |w| == (inlen + 1) / 2
    requires Agrees(layout, w, st0, s, ht[..], cdl[..]) && pi0 == st0.pi && charlen0 == st0.pi - st0.from
    requires Placed(s, inlen, large) && Apart(s, ht, cdl)
    modifies s, s.mem, ht, cdl
    ensures var r := Run(finder, w, h, end, st0);
            && Agrees(layout, w, r, s, ht[..], cdl[..])
            && pi == r.pi && charlen == r.pi - r.from
  {
    hide Step, Agrees, Below, Expand;
    pi, charlen := pi0, charlen0;
    ghost var st := st0;
    while pi < end
      invariant Good(w, end, st) && Run(finder, w, h, end, st) == Run(finder, w, h, end, st0)
      invariant Agrees(layout, w, st, s, ht[..], cdl[..]) && pi == st.pi && charlen == st.pi - st.from
      decreases end - pi
    {
      StepKeepsGood(finder, w, h, end, st);
      pi, charlen := EncodeTurn(layout, finder, w, h, end, s, ht, cdl, pi, charlen, inlen, large, st);
      st := Step(finder, w, h, end, st);
    }
  }

  /** CheckBuffer's memset. */
  method Clear(mem: array<byte>, inlen: nat)
    requires 2 * inlen <= mem.Length
    modifies mem
    ensures mem[..] == Opened(old(mem[..]), inlen)
  {
    ghost var was := mem[..];
    for i := 0 to 2 * inlen
      invariant forall k | 0 <= k < mem.Length :: mem[k] == if k < i then 0 else was[k]
    {
      mem[i] := 0;
    }
  }

  /** mylz16GetCharlen over all sections. */
  method CheckSections(s: Sections, inlen: nat, large: bool) returns (over: bool)
    requires s.Valid() && s.half == 0
    ensures over == Overflows(s.out, inlen, large)
  {
    over := false;
    for i := 0 to SECTION_COUNT
      invariant over == exists k | 0 <= k < i :: SectionLength(s.out, k) > Capacity(k, inlen, large)
    {
      if s.Length(i) > Capacity(i, inlen, large) {
        over := true;
      }
    }
  }

  /** Cursors at the starts of the reserves, and the first word as a literal. */
  method BeginSections(layout: Layout, w: seq<word>, ghost h: (word, word) -> Key, inlen: nat, large: bool, mem: array<byte>)
    returns (s: Sections)
    requires 2 <= |w| == (inlen + 1) / 2 && Reserve(inlen, large).end <= mem.Length
    modifies mem
    ensures fresh(s) && s.mem == mem && s.init == old(mem[..])
    ensures Placed(s, inlen, large)
    ensures Agrees(layout, w, Begin(w, h), s, Begin(w, h).ht, Begin(w, h).cdl)
  {
    hide Capacity;
    s := new Sections(mem, Reserve(inlen, large));
    PrintNothing(layout);
    assert w[0..1] == [w[0]];
    s.PutChar(w[0]);
  }

  /** Hash table and ring, zero-filled, position 0 entered. */
  method BeginTables(w: seq<word>, h: (word, word) -> Key) returns (ht: array<nat>, cdl: array<nat>)
    requires |w| >= 2
    ensures fresh(ht) && fresh(cdl) && ht != cdl
    ensures ht[..] == Begin(w, h).ht && cdl[..] == Begin(w, h).cdl
  {
    ht := new nat[HASH_SIZE](_ => 0);
    cdl := new nat[RING * HASH_SIZE](_ => 0);
    ht[KeyAt(w, h, 0)] := 0;
  }

  /** The last block goes out and the sections are complete. */
  method FinishSections(layout: Layout, w: seq<word>, s: Sections, pi: nat, charlen: nat, ghost inlen: nat, ghost large: bool, ghost st: EncSt)
    requires inlen > LIMIT_LEN && |w| == (inlen + 1) / 2 && Good(w, SearchEnd(inlen), st)
    requires Agrees(layout, w, st, s, st.ht, st.cdl) && Placed(s, inlen, large)
    requires pi == st.pi && charlen == st.pi - st.from
    modifies s, s.mem
    ensures s.Valid() && s.half == 0
    ensures s.out == Finish(PrintAll(layout, st.tokens), w[st.from..])
  {
    hide PrintAll, Good, Expand, Capacity, TailFlag;
    TailFits(layout, w, inlen, large, st, s);
    FinishFromPending(layout, st.tokens, w, st.from, st.pi);
    s.PutTail(w, pi, charlen + |w| - pi);
  }

  /** The sections of an input: search loop and last block. */
  method EncodeSections(layout: Layout, finder: Finder, pin: seq<byte>, pad: byte, h: (word, word) -> Key, large: bool, mem: array<byte>)
    returns (s: Sections)
    requires |pin| > LIMIT_LEN && Reserve(|pin|, large).end <= mem.Length
    modifies mem
    ensures fresh(s) && s.mem == mem && s.init == old(mem[..]) && Placed(s, |pin|, large)
    ensures s.Valid() && s.half == 0
    ensures s.out == EncodeStreams(layout, finder, pin, pad, h)
  {
    hide PrintAll, LzMatch.Run, Pack, Capacity, Good, Begin, Finish, Agrees;
    var w := Pack(pin, pad);
    var end := SearchEnd(|pin|);
    BeginIsGood(w, h, end);
    s := BeginSections(layout, w, h, |pin|, large, mem);
    var ht, cdl := BeginTables(w, h);
    BeginPosition(w, h);
    var pi, charlen := EncodeLoop(layout, finder, w, h, end, s, ht, cdl, 1, 1, |pin|, large, Begin(w, h));
    AgreesOnTables(layout, w, Search(finder, w, h, |pin|), s, ht[..], cdl[..]);
    FinishSections(layout, w, s, pi, charlen, |pin|, large, Search(finder, w, h, |pin|));
  }

  lemma BeginPosition(w: seq<word>, h: (word, word) -> Key)
    requires |w| >= 2
    ensures Begin(w, h).pi == 1 && Begin(w, h).from == 0
  {
  }

  lemma PrintNothing(layout: Layout)
    ensures PrintAll(layout, []) == Empty
  {
  }

  lemma FinishFromPending(layout: Layout, ts: seq<Token>, w: seq<word>, from: nat, pi: nat)
    requires Printable(ts) && from <= pi <= |w|
    ensures
      var Q := Pending(layout, ts, w[from..pi]);
      Finish(PrintAll(layout, ts), w[from..])
      == Streams(Q.chars + w[pi..], Q.dflag + [0], Q.dist, Q.flag + TailFlag(|w| - from),
                 Q.nibs + (if |Q.nibs| % 2 == 0 then [0, 0] else [0]))
  {
    hide PrintAll, TailFlag;
    assert w[from..] == w[from..pi] + w[pi..];
  }

  /** Room for the last block. */
  lemma TailFits(layout: Layout, w: seq<word>, inlen: nat, large: bool, st: EncSt, s: Sections)
    requires inlen > LIMIT_LEN && |w| == (inlen + 1) / 2
    requires Good(w, SearchEnd(inlen), st) && Printable(st.tokens)
    requires s.out == Pending(layout, st.tokens, w[st.from..st.pi]) && Placed(s, inlen, large)
    ensures HEADER + 2 * (|s.out.chars| + (|w| - st.pi)) <= s.P.o4
    ensures s.P.o3 + |s.out.flag| + |TailFlag(|w| - st.from)| <= s.P.o4
    ensures |s.out.nibs| + 2 <= 2 * (s.P.end - s.P.o4) && s.P.o1 + |s.out.dflag| < s.P.o2
  {
    hide PrintAll, TailFlag, Expand, Capacity, Valid;
    RestIsLong(w, inlen, st);
    TokensSize(layout, st.tokens);
    assert |Expand(st.tokens)| == st.from;
    TailFlagSize(|w| - st.from);
    RoomForTail(PrintAll(layout, st.tokens), |TailFlag(|w| - st.from)|, st.from, |st.tokens|, inlen, large);
  }

  lemma RoomForTail(Q: Streams, more: nat, from: nat, tokens: nat, inlen: nat, large: bool)
    requires inlen > LIMIT_LEN && |Q.dflag| == tokens && |Q.flag| <= tokens && |Q.nibs| <= from
    requires 2 * tokens <= from < (inlen + 1) / 2 && more <= ((inlen + 1) / 2 - from) / 2
    requires tokens > 0 ==> from + 4 <= inlen / 2
    requires tokens == 0 ==> from == 0
    ensures |Q.flag| + more <= Capacity(3, inlen, large)
    ensures |Q.nibs| + 2 <= 2 * Capacity(4, inlen, large) && |Q.dflag| < Capacity(1, inlen, large)
  {
  }

  /** What an encoder returns; the lengths go into the header. */
  datatype Report = Refused | SectionOver | Merged(lens: seq<nat>)

  /** One past the last byte an encoder may change. */
  function UsedEnd(inlen: nat, P: Places, S: Streams): nat {
    var used := P.o4 + |S.nibs| / 2;
    if used < 2 * inlen then 2 * inlen else used
  }

  /** The report and the memory are what the outcome says. */
  ghost predicate Reported(r: Report, mem: seq<byte>, outcome: Encoded) {
    match outcome
    case Refused => r == Report.Refused
    case SectionOver => r == Report.SectionOver
    case Encoded(S) =>
      && |S.nibs| % 2 == 0 && r == Report.Merged(Sizes(SectionBytes(S)))
      && At(mem, HEADER, Concat(SectionBytes(S)))
  }

  /** The encoders: lz16ENhashm and lz16ENhashDm with `Narrow`, lz16ENhashmc and
      lz16ENhashDmc with `Packed`. `mem` is the memory from the output pointer on. */
  method Lz16Encode(layout: Layout, finder: Finder, pin: seq<byte>, pad: byte, h: (word, word) -> Key, outlen: nat, mem: array<byte>)
    returns (r: Report)
    requires BuffersFit(|pin|, outlen) ==> PlacesFor(|pin|, outlen).end <= mem.Length
    modifies mem
    ensures Reported(r, mem[..], EncodeOutcome(layout, finder, pin, pad, h, outlen, old(mem[..])))
    ensures !BuffersFit(|pin|, outlen) ==> mem[..] == old(mem[..])
    ensures BuffersFit(|pin|, outlen) ==>
              SameFrom(mem[..], old(mem[..]), UsedEnd(|pin|, PlacesFor(|pin|, outlen), EncodeStreams(layout, finder, pin, pad, h)))
  {
    hide EncodeStreams, Opened, SameFrom, Reserve, Overflows, UsedEnd, Overlaid;
    OutcomeCases(layout, finder, pin, pad, h, outlen, mem[..]);
    if !BuffersFit(|pin|, outlen) { return Report.Refused; }
    ReservesExceed(|pin|, outlen);
    r := EncodeFitting(layout, finder, pin, pad, h, IsLarge(|pin|, outlen), mem);
  }

  /** Once the lengths are accepted: clear, encode, check, merge. */
  method EncodeFitting(layout: Layout, finder: Finder, pin: seq<byte>, pad: byte, h: (word, word) -> Key, large: bool, mem: array<byte>)
    returns (r: Report)
    requires |pin| > LIMIT_LEN && 2 * |pin| <= Reserve(|pin|, large).end <= mem.Length
    requires 2 * Reserve(|pin|, large).o4 + |EncodeStreams(layout, finder, pin, pad, h).nibs| <= 2 * mem.Length
    modifies mem
    ensures var S := EncodeStreams(layout, finder, pin, pad, h);
            var P := Reserve(|pin|, large);
            && Reported(r, mem[..], OutcomeIn(S, |pin|, large, old(mem[..])))
            && SameFrom(mem[..], old(mem[..]), UsedEnd(|pin|, P, S))
  {
    hide EncodeStreams, Opened, SameFrom, Reserve, Overflows, UsedEnd, Overlaid, At, Concat, SectionBytes, Sizes, Capacity;
    ghost var mem0 := mem[..];
    Clear(mem, |pin|);
    var s := EncodeSections(layout, finder, pin, pad, h, large, mem);
    UsedPart(s);
    UntouchedBehind(mem[..], mem0, |pin|, s.P, s.out);
    var over := CheckSections(s, |pin|, large);
    if over { return Report.SectionOver; }
    LiteralsInPlace(s, |pin|, large);
    var lens := s.Merge();
    UntouchedBehind(mem[..], mem0, |pin|, s.P, s.out);
    r := Report.Merged(lens);
  }

  /** The memory behind the header decodes to the input when the used nibble bytes were
      clean, whatever follows the sections there. */
  lemma MemoryDecodes(layout: Layout, finder: Finder, pin: seq<byte>, pad: byte, h: (word, word) -> Key, outlen: nat,
                      mem0: seq<byte>, r: Report, mem: seq<byte>)
    requires BuffersFit(|pin|, outlen) && PlacesFor(|pin|, outlen).end <= |mem0|
    requires EncodeOutcome(layout, finder, pin, pad, h, outlen, mem0).Encoded?
    requires Reported(r, mem, EncodeOutcome(layout, finder, pin, pad, h, outlen, mem0))
    ensures var S := EncodeStreams(layout, finder, pin, pad, h);
            var P := PlacesFor(|pin|, outlen);
            && |S.nibs| % 2 == 0 && P.o4 + |S.nibs| / 2 <= |mem0|
            && HEADER <= |mem| && r.Merged? && |r.lens| == SECTION_COUNT
            && (Clean(mem0, 2 * |pin|, P.o4, S.nibs) ==>
                 DecodeMerged(layout, mem[HEADER..], r.lens, |pin|, |pin|) == LzDecode.Go(pin))
  {
    hide EncodeStreams, EncodeOutcome, LzDecode.Decode, DecodeMerged, SectionBytes, Concat, Sizes, Clean, Capacity, Reserve, ZeroBehind;
    EncodeOutcomeExactly(layout, finder, pin, pad, h, outlen, mem0);
    var S := EncodeOutcome(layout, finder, pin, pad, h, outlen, mem0).sections;
    var b := Concat(SectionBytes(S));
    assert mem[HEADER..] == b + mem[HEADER + |b|..];
    MergedDecodes(layout, S, mem[HEADER + |b|..], |pin|, |pin|);
  }

  lemma OutcomeCases(layout: Layout, finder: Finder, pin: seq<byte>, pad: byte, h: (word, word) -> Key, outlen: nat, mem0: seq<byte>)
    requires BuffersFit(|pin|, outlen) ==> PlacesFor(|pin|, outlen).end <= |mem0|
    ensures var r := EncodeOutcome(layout, finder, pin, pad, h, outlen, mem0);
            if !BuffersFit(|pin|, outlen) then r == Encoded.Refused
            else
              var S := EncodeStreams(layout, finder, pin, pad, h);
              var large := IsLarge(|pin|, outlen);
              2 * Reserve(|pin|, large).o4 + |S.nibs| <= 2 * |mem0| && r == OutcomeIn(S, |pin|, large, mem0)
  {
    hide EncodeStreams, Opened, Overlaid, Overflows;
    if BuffersFit(|pin|, outlen) {
      SectionsFit(layout, finder, pin, pad, h, IsLarge(|pin|, outlen), 4);
      EncodedIsWhole(layout, finder, pin, pad, h);
    }
  }

  /** Behind the used nibbles the memory is as it was. */
  lemma UsedPart(s: Sections)
    requires s.Valid() && s.half == 0
    ensures SameFrom(s.mem[..], s.init, s.P.o4 + |s.out.nibs| / 2)
  {
    hide NibbleBuffer.Merged, PackNibbles, Overlaid;
    NibbleBytes(s.mem[..], s.init, s.P.o4, s.P.end, s.out.nibs);
  }

  lemma UntouchedBehind(m: seq<byte>, mem0: seq<byte>, inlen: nat, P: Places, S: Streams)
    requires SameFrom(m, Opened(mem0, inlen), P.o4 + |S.nibs| / 2)
    ensures SameFrom(m, mem0, UsedEnd(inlen, P, S))
  {
  }

  lemma LiteralsInPlace(s: Sections, inlen: nat, large: bool)
    requires Placed(s, inlen, large) && !Overflows(s.out, inlen, large)
    ensures Fits(s.P, s.out)
  {
    assert SectionLength(s.out, 0) <= Capacity(0, inlen, large);
  }
}
