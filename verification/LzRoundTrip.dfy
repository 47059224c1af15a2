/** The decoders read back what the encoders print: every token of either layout, hence
    every valid token stream with its last block. */
module LzRoundTrip {
  import opened Words
  import opened Nibbles
  import opened Tokens
  import opened LzDecode

  /** Decoder state right behind a printed prefix. */
  function Behind(P: Streams, out: seq<word>): St {
    St(|P.chars|, |P.dflag|, |P.dist|, |P.flag|, |P.nibs|, out)
  }

  /** In every section of `S`, the fragment `F` follows the prefix `P`. */
  ghost predicate Occurs(S: Streams, P: Streams, F: Streams) {
    && At(S.chars, |P.chars|, F.chars)
    && At(S.dflag, |P.dflag|, F.dflag)
    && At(S.dist, |P.dist|, F.dist)
    && At(S.flag, |P.flag|, F.flag)
    && At(S.nibs, |P.nibs|, F.nibs)
  }

  lemma AtOne<T>(s: seq<T>, c: nat, x: T)
    requires At(s, c, [x])
    ensures c < |s| && s[c] == x
  {
    assert s[c..c + 1][0] == s[c];
  }

  lemma AtTwo<T>(s: seq<T>, c: nat, x: T, y: T)
    requires At(s, c, [x, y])
    ensures c + 1 < |s| && s[c] == x && s[c + 1] == y
  {
    assert s[c..c + 2][0] == s[c] && s[c..c + 2][1] == s[c + 1];
  }

  /** The bit fields of a flag byte. */
  lemma RestFlagFields(k: nat, rest: nat)
    requires k < 4 && rest < MATCH_OFFSET_MAX
    ensures var c := RestFlag(k * 0x40, rest);
            && c / 0x40 == k
            && (rest < 0x20 ==> c / 0x20 % 2 == 0 && c % 0x20 == rest)
            && (rest >= 0x20 ==>
                 && c / 0x20 % 2 == 1
                 && DistanceBytes(c) == |RestBytes(rest)|
                 && c % 0x10 == rest % 0x10)
  {
    if rest >= 0x20 {
      var i := (rest / 0x10 + 0xFF00) / 0x1_0000;
      assert 0 <= i <= 1;
      TopBits(k, i + 2, rest % 0x10);
    }
  }

  lemma TopBits(k: nat, j: nat, r: nat)
    requires k < 4 && j < 4 && r < 0x10
    ensures var c := k * 0x40 + 0x10 * j + r;
            c / 0x40 == k && c / 0x20 % 2 == j / 2 && c / 0x10 % 4 == j && c % 0x10 == r
  {
    var c := k * 0x40 + 0x10 * j + r;
    assert c / 0x10 == 4 * k + j;
    assert c / 0x20 == 2 * k + j / 2;
  }

  /** The identity bits the decoders test. */
  lemma IdentityBits(c: byte, k: nat)
    requires k < 4 && c / 0x40 == k
    ensures c >= 0x80 <==> k >= 2
    ensures c / 0x40 % 2 == k % 2
  {
  }

  /** Identity and distance head survive: the cursor moves by what was written. */
  lemma DistanceRoundTrip(S: Streams, st: St, k: nat, rest: nat)
    requires k < 4 && rest < MATCH_OFFSET_MAX
    requires At(S.dflag, st.pd, [RestFlag(k * 0x40, rest)]) && At(S.dist, st.ps, RestBytes(rest))
    ensures TakeDistance(S, st)
         == Go((RestFlag(k * 0x40, rest), rest, st.(pd := st.pd + 1, ps := st.ps + |RestBytes(rest)|)))
    ensures RestFlag(k * 0x40, rest) >= 0x80 <==> k >= 2
    ensures RestFlag(k * 0x40, rest) / 0x40 % 2 == k % 2
  {
    var c := RestFlag(k * 0x40, rest);
    RestFlagFields(k, rest);
    IdentityBits(c, k);
    AtOne(S.dflag, st.pd, c);
    hide RestFlag, At;
    if rest >= 0x20 {
      DistanceBytesRead(S, st, c, rest);
    }
  }

  /** The one or two distance bytes behind a flag byte that announces them. */
  lemma DistanceBytesRead(S: Streams, st: St, c: byte, rest: nat)
    requires 0x20 <= rest < MATCH_OFFSET_MAX && st.pd < |S.dflag| && S.dflag[st.pd] == c
    requires c / 0x20 % 2 == 1 && DistanceBytes(c) == |RestBytes(rest)| && c % 0x10 == rest % 0x10
    requires At(S.dist, st.ps, RestBytes(rest))
    ensures TakeDistance(S, st) == Go((c, rest, st.(pd := st.pd + 1, ps := st.ps + |RestBytes(rest)|)))
  {
    hide DistanceBytes;
    var dis := rest / 0x10;
    if (dis + 0xFF00) / 0x1_0000 == 0 {
      AtOne(S.dist, st.ps, dis % 0x100);
    } else {
      AtTwo(S.dist, st.ps, dis % 0x100, dis / 0x100);
    }
  }

  lemma LengthRoundTrip(S: Streams, st: St, l: nat, base: nat)
    requires At(S.nibs, st.pn, LengthCode(l))
    ensures TakeLength(S, st, base) == Go((base + l, st.(pn := st.pn + |LengthCode(l)|)))
  {
    ReadLengthOfCode(S.nibs, st.pn, l);
  }

  lemma CappedRoundTrip(S: Streams, st: St, l: nat, limit: nat)
    requires At(S.nibs, st.pn, CappedCode(l, limit))
    ensures TakeCapped(S, st, Capped(l, limit), limit) == Go((l, st.(pn := st.pn + |CappedCode(l, limit)|)))
  {
    if l >= limit {
      LengthRoundTrip(S, st, l - limit, limit);
    }
  }

  /** Copying a match of one word less than a token asks for, by the decoder's count. */
  lemma MatchRoundTrip(st: St, out: seq<word>, t: Token, inlen: nat)
    requires Applies(out, t) && 2 * (|out| + Consumed(t)) <= inlen
    requires st.out == out + t.lits
    ensures CheckDistance(st, t.dist) == Go(())
    ensures TakeMatch(st, t.dist, t.extra + 2, inlen) == Go(st.(out := Apply(out, t)))
    ensures t.extra == 0 ==> TakeTwo(st, t.dist, inlen) == Go(st.(out := Apply(out, t)))
  {
  }

  lemma LitsRoundTrip(S: Streams, st: St, lits: seq<word>, inlen: nat)
    requires At(S.chars, st.pc, lits) && 2 * (|st.out| + |lits|) <= inlen
    ensures TakeLits(S, st, |lits|, inlen) == Go(st.(pc := st.pc + |lits|, out := st.out + lits))
  {
  }

  // -------------------------------------------------------------- Narrow tokens

  /** The literal run of levels 1 and 3: a length in the nibbles, words in their section. */
  lemma RunRoundTrip(S: Streams, st: St, lits: seq<word>, inlen: nat)
    requires |lits| > 0 && 2 * (|st.out| + |lits|) <= inlen
    requires At(S.nibs, st.pn, LengthCode(|lits| - 1)) && At(S.chars, st.pc, lits)
    ensures TakeLitRun(S, st, inlen)
         == Go(st.(pn := st.pn + |LengthCode(|lits| - 1)|, pc := st.pc + |lits|, out := st.out + lits))
  {
    LengthRoundTrip(S, st, |lits| - 1, 1);
    LitsRoundTrip(S, st.(pn := st.pn + |LengthCode(|lits| - 1)|), lits, inlen);
  }

  /** The flag byte `mmmd dddd`, and the distance put together again. */
  lemma MatchFields(m: nat, d: nat)
    requires m < 8
    ensures var f := m * 0x20 + d % 0x20;
            f < 0x100 && f / 0x20 == m && f % 0x20 == d % 0x20 && d / 0x20 * 0x20 + f % 0x20 == d
  {
  }

  lemma NarrowMatch(S: Streams, P: Streams, t: Token, out: seq<word>, inlen: nat)
    requires Applies(out, t) && 2 * (|out| + Consumed(t)) <= inlen && t.extra > 0
    requires Occurs(S, P, Print(Narrow, t))
    ensures TakeNarrow(S, Behind(P, out), inlen) == Go(Behind(P.Plus(Print(Narrow, t)), Apply(out, t)))
  {
    hide CopyMatch, LengthCode, RestFlag, RestBytes, Apply, TakeMatch, TakeDistance, TakeCapped, TakeLitRun, At, Capped, CappedCode;
    var st := Behind(P, out);
    var n, rest := |t.lits|, t.dist / 0x20;
    DistanceRoundTrip(S, st, if n > 0 then 3 else 2, rest);
    var st1 := st.(pd := st.pd + 1, ps := st.ps + |RestBytes(rest)|);
    var runCode := if n > 0 then LengthCode(n - 1) else [];
    var extraCode := CappedCode(t.extra - 1, 7);
    AtSplit(S.nibs, st.pn, runCode, extraCode);
    if n > 0 {
      RunRoundTrip(S, st1, t.lits, inlen);
    } else {
      assert out + t.lits == out;
    }
    var st2 := st1.(pn := st1.pn + |runCode|, pc := st1.pc + n, out := out + t.lits);
    MatchFields(Capped(t.extra - 1, 7), t.dist);
    var f: byte := Capped(t.extra - 1, 7) * 0x20 + t.dist % 0x20;
    AtOne(S.flag, st.pf, f);
    var st3 := st2.(pf := st2.pf + 1);
    CappedRoundTrip(S, st3, t.extra - 1, 7);
    MatchRoundTrip(st3.(pn := st3.pn + |extraCode|), out, t, inlen);
  }

  lemma NarrowTwo(S: Streams, P: Streams, t: Token, out: seq<word>, inlen: nat)
    requires Applies(out, t) && 2 * (|out| + Consumed(t)) <= inlen && t.extra == 0
    requires Occurs(S, P, Print(Narrow, t))
    ensures TakeNarrow(S, Behind(P, out), inlen) == Go(Behind(P.Plus(Print(Narrow, t)), Apply(out, t)))
  {
    hide CopyMatch, LengthCode, RestFlag, RestBytes, Apply, TakeTwo, TakeDistance, TakeLitRun, At;
    var st := Behind(P, out);
    var n := |t.lits|;
    DistanceRoundTrip(S, st, if n > 0 then 1 else 0, t.dist);
    var st1 := st.(pd := st.pd + 1, ps := st.ps + |RestBytes(t.dist)|);
    var runCode := if n > 0 then LengthCode(n - 1) else [];
    if n > 0 {
      RunRoundTrip(S, st1, t.lits, inlen);
    } else {
      assert out + t.lits == out;
    }
    MatchRoundTrip(st1.(pn := st1.pn + |runCode|, pc := st1.pc + n, out := out + t.lits), out, t, inlen);
  }

  // -------------------------------------------------------------- Packed tokens

  /** The match part of a packed token, once literals and distance are in place. */
  lemma PackedMatchPart(S: Streams, st: St, t: Token, out: seq<word>, f: byte, inlen: nat)
    requires Applies(out, t) && 2 * (|out| + Consumed(t)) <= inlen && t.extra > 0
    requires st.out == out + t.lits && f / 0x20 == Capped(t.extra - 1, 7)
    requires At(S.nibs, st.pn, CappedCode(t.extra - 1, 7))
    ensures TakePackedMatch(S, st, t.dist, f, inlen)
         == Go(st.(pn := st.pn + |CappedCode(t.extra - 1, 7)|, out := Apply(out, t)))
  {
    hide CopyMatch, Apply, TakeMatch, TakeCapped;
    var st1 := st.(pn := st.pn + |CappedCode(t.extra - 1, 7)|);
    CappedRoundTrip(S, st, t.extra - 1, 7);
    MatchRoundTrip(st1, out, t, inlen);
    assert CheckDistance(st, t.dist) == CheckDistance(st1, t.dist);
  }

  lemma PackedBareMatch(S: Streams, P: Streams, t: Token, out: seq<word>, inlen: nat)
    requires Applies(out, t) && 2 * (|out| + Consumed(t)) <= inlen && t.extra > 0 && t.lits == []
    requires Occurs(S, P, Print(Packed, t))
    ensures TakePacked(S, Behind(P, out), inlen) == Go(Behind(P.Plus(Print(Packed, t)), Apply(out, t)))
  {
    hide CopyMatch, RestFlag, RestBytes, Apply, TakePackedMatch, TakeDistance, At, CappedCode;
    var st := Behind(P, out);
    var rest := t.dist / 0x20;
    DistanceRoundTrip(S, st, 2, rest);
    MatchFields(Capped(t.extra - 1, 7), t.dist);
    var f: byte := Capped(t.extra - 1, 7) * 0x20 + t.dist % 0x20;
    AtOne(S.flag, st.pf, f);
    assert out + t.lits == out;
    PackedMatchPart(S, st.(pd := st.pd + 1, ps := st.ps + |RestBytes(rest)|, pf := st.pf + 1), t, out, f, inlen);
  }

  lemma PackedBareTwo(S: Streams, P: Streams, t: Token, out: seq<word>, inlen: nat)
    requires Applies(out, t) && 2 * (|out| + Consumed(t)) <= inlen && t.extra == 0 && t.lits == []
    requires Occurs(S, P, Print(Packed, t))
    ensures TakePacked(S, Behind(P, out), inlen) == Go(Behind(P.Plus(Print(Packed, t)), Apply(out, t)))
  {
    hide CopyMatch, RestFlag, RestBytes, Apply, TakeTwo, TakeDistance;
    var st := Behind(P, out);
    var rest := t.dist / 0x100;
    DistanceRoundTrip(S, st, 0, rest);
    AtTwo(S.nibs, st.pn, t.dist % 0x100 % 16, t.dist % 0x100 / 16);
    assert out + t.lits == out;
    MatchRoundTrip(st.(pd := st.pd + 1, ps := st.ps + |RestBytes(rest)|, pn := st.pn + 2), out, t, inlen);
  }

  /** The packed literal run: a field of the flag byte, extended in the nibbles. */
  lemma PackedLitsPart(S: Streams, st: St, lits: seq<word>, inlen: nat)
    requires |lits| > 0 && 2 * (|st.out| + |lits|) <= inlen
    requires At(S.nibs, st.pn, CappedCode(|lits| - 1, 3)) && At(S.chars, st.pc, lits)
    ensures var st1 := st.(pn := st.pn + |CappedCode(|lits| - 1, 3)|);
            && TakeCapped(S, st, Capped(|lits| - 1, 3), 3) == Go((|lits| - 1, st1))
            && TakeLits(S, st1, |lits|, inlen) == Go(st1.(pc := st.pc + |lits|, out := st.out + lits))
  {
    CappedRoundTrip(S, st, |lits| - 1, 3);
    LitsRoundTrip(S, st.(pn := st.pn + |CappedCode(|lits| - 1, 3)|), lits, inlen);
  }

  /** The flag byte `mmmc cddd`. */
  lemma PackedFields(m: nat, c: nat, d: nat)
    requires m < 8 && c < 4
    ensures var f := m * 0x20 + c * 0x8 + d % 0x8;
            f < 0x100 && f / 0x20 == m && f / 8 % 4 == c && f % 8 == d % 8
  {
    var f := m * 0x20 + c * 0x8 + d % 0x8;
    assert f / 8 == m * 4 + c;
  }

  lemma PackedLitsMatch(S: Streams, P: Streams, t: Token, out: seq<word>, inlen: nat)
    requires Applies(out, t) && 2 * (|out| + Consumed(t)) <= inlen && t.extra > 0 && t.lits != []
    requires Occurs(S, P, Print(Packed, t))
    ensures TakePacked(S, Behind(P, out), inlen) == Go(Behind(P.Plus(Print(Packed, t)), Apply(out, t)))
  {
    hide CopyMatch, RestFlag, RestBytes, Apply, TakePackedMatch, TakeDistance, TakeCapped, TakeLits, At;
    var st := Behind(P, out);
    var n, rest := |t.lits|, t.dist / 0x8;
    DistanceRoundTrip(S, st, 3, rest);
    var f: byte := Capped(t.extra - 1, 7) * 0x20 + Capped(n - 1, 3) * 0x8 + t.dist % 0x8;
    PackedFields(Capped(t.extra - 1, 7), Capped(n - 1, 3), t.dist);
    AtOne(S.flag, st.pf, f);
    var st2 := st.(pd := st.pd + 1, ps := st.ps + |RestBytes(rest)|, pf := st.pf + 1);
    AtSplit(S.nibs, st.pn, CappedCode(n - 1, 3), CappedCode(t.extra - 1, 7));
    PackedLitsPart(S, st2, t.lits, inlen);
    var st4 := st2.(pn := st2.pn + |CappedCode(n - 1, 3)|, pc := st.pc + n, out := out + t.lits);
    PackedMatchPart(S, st4, t, out, f, inlen);
  }

  lemma PackedLitsTwo(S: Streams, P: Streams, t: Token, out: seq<word>, inlen: nat)
    requires Applies(out, t) && 2 * (|out| + Consumed(t)) <= inlen && t.extra == 0 && t.lits != []
    requires Occurs(S, P, Print(Packed, t))
    ensures TakePacked(S, Behind(P, out), inlen) == Go(Behind(P.Plus(Print(Packed, t)), Apply(out, t)))
  {
    hide CopyMatch, RestFlag, RestBytes, Apply, TakeTwo, TakeDistance, TakeCapped, TakeLits, At;
    var st := Behind(P, out);
    var n, rest := |t.lits|, t.dist / 0x40;
    DistanceRoundTrip(S, st, 1, rest);
    var f: byte := Capped(n - 1, 3) * 0x40 + t.dist % 0x40;
    AtOne(S.flag, st.pf, f);
    var st2 := st.(pd := st.pd + 1, ps := st.ps + |RestBytes(rest)|, pf := st.pf + 1);
    PackedLitsPart(S, st2, t.lits, inlen);
    MatchRoundTrip(st2.(pn := st2.pn + |CappedCode(n - 1, 3)|, pc := st.pc + n, out := out + t.lits), out, t, inlen);
  }

  // ------------------------------------------------------------- token streams

  /** One token, either layout: all five cursors land behind what was printed. */
  lemma TokenRoundTrip(layout: Layout, S: Streams, P: Streams, t: Token, out: seq<word>, inlen: nat)
    requires Applies(out, t) && 2 * (|out| + Consumed(t)) <= inlen
    requires Occurs(S, P, Print(layout, t))
    ensures TakeToken(layout, S, Behind(P, out), inlen) == Go(Behind(P.Plus(Print(layout, t)), Apply(out, t)))
  {
    hide TakeNarrow, TakePacked, PrintNarrow, PrintPacked, Apply;
    if layout == Narrow {
      if t.extra > 0 { NarrowMatch(S, P, t, out, inlen); } else { NarrowTwo(S, P, t, out, inlen); }
    } else if t.lits == [] {
      if t.extra > 0 { PackedBareMatch(S, P, t, out, inlen); } else { PackedBareTwo(S, P, t, out, inlen); }
    } else {
      if t.extra > 0 { PackedLitsMatch(S, P, t, out, inlen); } else { PackedLitsTwo(S, P, t, out, inlen); }
    }
  }

  lemma PlusAssociates(a: Streams, b: Streams, c: Streams)
    ensures a.Plus(b).Plus(c) == a.Plus(b.Plus(c))
  {
    assert a.chars + b.chars + c.chars == a.chars + (b.chars + c.chars);
    assert a.dflag + b.dflag + c.dflag == a.dflag + (b.dflag + c.dflag);
    assert a.dist + b.dist + c.dist == a.dist + (b.dist + c.dist);
    assert a.flag + b.flag + c.flag == a.flag + (b.flag + c.flag);
    assert a.nibs + b.nibs + c.nibs == a.nibs + (b.nibs + c.nibs);
  }

  lemma OccursBetween(P: Streams, F: Streams, R: Streams)
    ensures Occurs(P.Plus(F).Plus(R), P, F)
  {
    PlusAssociates(P, F, R);
  }

  /** Token `k` of a printed stream sits right behind the tokens before it. */
  lemma {:induction false} TokenOccurs(layout: Layout, ts: seq<Token>, k: nat, R: Streams)
    requires Printable(ts) && k < |ts|
    ensures Occurs(PrintAll(layout, ts).Plus(R), PrintAll(layout, ts[..k]), Print(layout, ts[k]))
    decreases |ts|
  {
    hide Print, Occurs;
    var n := |ts| - 1;
    if k == n {
      OccursBetween(PrintAll(layout, ts[..n]), Print(layout, ts[n]), R);
    } else {
      assert ts[..n][..k] == ts[..k];
      TokenOccurs(layout, ts[..n], k, Print(layout, ts[n]).Plus(R));
      PlusAssociates(PrintAll(layout, ts[..n]), Print(layout, ts[n]), R);
    }
  }

  lemma {:induction false} FlagPerToken(layout: Layout, ts: seq<Token>)
    requires Printable(ts)
    ensures |PrintAll(layout, ts).dflag| == |ts|
  {
    if ts == [] {
    } else {
      FlagPerToken(layout, ts[..|ts| - 1]);
    }
  }

  lemma {:induction false} ValidPrefix(ts: seq<Token>, k: nat)
    requires Valid(ts) && k < |ts|
    ensures Valid(ts[..k]) && Applies(Expand(ts[..k]), ts[k])
    ensures Expand(ts[..k + 1]) == Apply(Expand(ts[..k]), ts[k])
    ensures |Expand(ts[..k])| + Consumed(ts[k]) <= |Expand(ts)|
    decreases |ts|
  {
    var n := |ts| - 1;
    if k == n {
      assert ts[..k + 1] == ts;
    } else {
      ValidPrefix(ts[..n], k);
      assert ts[..n][..k] == ts[..k] && ts[..n][..k + 1] == ts[..k + 1];
    }
  }

  /** A printed stream of valid tokens, whatever follows it, decodes to its meaning. */
  lemma {:induction false} TokensRoundTrip(layout: Layout, ts: seq<Token>, k: nat, R: Streams, inlen: nat)
    requires Valid(ts) && Printable(ts) && k <= |ts| && |R.dflag| == 1
    requires 2 * |Expand(ts)| <= inlen
    ensures TakeAll(layout, PrintAll(layout, ts).Plus(R), Behind(PrintAll(layout, ts[..k]), Expand(ts[..k])), inlen)
         == Go(Behind(PrintAll(layout, ts), Expand(ts)))
    decreases |ts| - k
  {
    hide Print, Occurs, TakeToken, Apply, Expand, Applies;
    var S := PrintAll(layout, ts).Plus(R);
    FlagPerToken(layout, ts);
    FlagPerToken(layout, ts[..k]);
    if k == |ts| {
      assert ts[..k] == ts;
    } else {
      TokenOccurs(layout, ts, k, R);
      ValidPrefix(ts, k);
      TokenRoundTrip(layout, S, PrintAll(layout, ts[..k]), ts[k], Expand(ts[..k]), inlen);
      assert ts[..k + 1][..k] == ts[..k] && ts[..k + 1][k] == ts[k];
      TokensRoundTrip(layout, ts, k + 1, R, inlen);
    }
  }

  // ---------------------------------------------------------------- last block

  lemma {:induction false} RunTailRoundTrip(S: Streams, st: St, l: nat, base: nat)
    requires At(S.flag, st.pf, TailRun(l))
    ensures TakeRun(S, st, base) == Go((base + l, st.(pf := st.pf + |TailRun(l)|)))
    decreases l
  {
    if l < 255 {
      AtOne<byte>(S.flag, st.pf, l);
    } else {
      AtSplit<byte>(S.flag, st.pf, [255], TailRun(l - 255));
      AtOne<byte>(S.flag, st.pf, 255);
      RunTailRoundTrip(S, st.(pf := st.pf + 1), l - 255, base + 255);
    }
  }

  lemma {:induction false} BytesOfConcat(a: seq<word>, b: seq<word>)
    ensures BytesOf(a + b) == BytesOf(a) + BytesOf(b)
  {
    if a == [] {
      assert a + b == b;
    } else {
      assert (a + b)[1..] == a[1..] + b;
      BytesOfConcat(a[1..], b);
    }
  }

  lemma LastWord(front: seq<word>, last: word, inlen: nat)
    requires 2 * |front| + 1 <= inlen <= 2 * |front| + 2
    ensures inlen <= |BytesOf(front + [last])|
    ensures WithLast(front, last, inlen) == BytesOf(front + [last])[..inlen]
  {
    BytesOfConcat(front, [last]);
    BytesOfOne(last);
    CutLast(BytesOf(front), last % 0x100, last / 0x100, |front|, inlen);
  }

  lemma BytesOfOne(w: word)
    ensures BytesOf([w]) == [w % 0x100, w / 0x100]
  {
    assert [w][1..] == [];
  }

  lemma CutLast(b: seq<byte>, low: byte, high: byte, k: nat, inlen: nat)
    requires |b| == 2 * k && 2 * k + 1 <= inlen <= 2 * k + 2
    ensures b + (if inlen % 2 == 0 then [low, high] else [low]) == (b + [low, high])[..inlen]
  {
    if inlen == 2 * k + 1 {
      assert inlen % 2 == 1;
    } else {
      assert inlen == 2 * (k + 1);
    }
  }

  lemma TailLengthRoundTrip(S: Streams, st: St, n: nat)
    requires At(S.flag, st.pf, TailFlag(n))
    ensures TakeTailLength(S, st) == Go((n, st.(pf := st.pf + |TailFlag(n)|)))
  {
    if n < 15 {
      AtOne<byte>(S.flag, st.pf, n);
    } else {
      AtSplit<byte>(S.flag, st.pf, [15], TailRun(n - 15));
      AtOne<byte>(S.flag, st.pf, 15);
      RunTailRoundTrip(S, st.(pf := st.pf + 1), n - 15, 15);
    }
  }

  lemma TailWordsRoundTrip(S: Streams, st: St, tail: seq<word>, inlen: nat)
    requires tail != [] && 2 * (|st.out| + |tail|) - 1 <= inlen <= 2 * (|st.out| + |tail|)
    requires At(S.chars, st.pc, tail)
    ensures |BytesOf(st.out + tail)| >= inlen
    ensures TakeTailWords(S, st, |tail|, inlen) == Go(BytesOf(st.out + tail)[..inlen])
  {
    hide WithLast, BytesOf;
    var n := |tail| - 1;
    var front := st.out + tail[..n];
    assert S.chars[st.pc..st.pc + n] == tail[..n];
    assert S.chars[st.pc + n] == tail[n];
    assert front + [tail[n]] == st.out + tail;
    LastWord(front, tail[n], inlen);
  }

  /** The last block: its length is read from the flag section; an odd input loses the
      padding half of its last word. */
  lemma TailRoundTrip(S: Streams, st: St, tail: seq<word>, inlen: nat)
    requires tail != [] && 2 * (|st.out| + |tail|) - 1 <= inlen <= 2 * (|st.out| + |tail|)
    requires At(S.flag, st.pf, TailFlag(|tail|)) && At(S.chars, st.pc, tail)
    ensures |BytesOf(st.out + tail)| >= inlen
    ensures TakeTail(S, st, inlen) == Go(BytesOf(st.out + tail)[..inlen])
  {
    hide TakeTailLength, TakeTailWords, BytesOf, TailFlag, At;
    TailLengthRoundTrip(S, st, |tail|);
    TailWordsRoundTrip(S, st.(pf := st.pf + |TailFlag(|tail|)|), tail, inlen);
  }

  // ------------------------------------------------------------- whole sections

  /** The input as 16-bit words; an odd last byte is paired with whatever byte follows. */
  function Pack(pin: seq<byte>, pad: byte): (w: seq<word>)
    ensures |w| == (|pin| + 1) / 2
  {
    if pin == [] then []
    else if |pin| == 1 then [Pair(pin[0], pad)]
    else [Pair(pin[0], pin[1])] + Pack(pin[2..], pad)
  }

  function Pair(low: byte, high: nat): word
    requires high < 0x100
  {
    low + 0x100 * high
  }

  lemma {:induction false} UnpackPack(pin: seq<byte>, pad: byte)
    ensures |pin| <= |BytesOf(Pack(pin, pad))|
    ensures BytesOf(Pack(pin, pad))[..|pin|] == pin
    decreases |pin|
  {
    if |pin| <= 1 {
    } else {
      var rest := BytesOf(Pack(pin[2..], pad));
      UnpackPack(pin[2..], pad);
      assert BytesOf(Pack(pin, pad)) == [pin[0], pin[1]] + rest;
      assert ([pin[0], pin[1]] + rest)[..|pin|] == [pin[0], pin[1]] + rest[..|pin| - 2];
    }
  }

  function FinishPart(nibbles: nat, tail: seq<word>): Streams {
    Streams(tail, [0], [], TailFlag(|tail|), if nibbles % 2 == 0 then [0, 0] else [0])
  }

  lemma FinishIsPlus(s: Streams, tail: seq<word>)
    ensures Finish(s, tail) == s.Plus(FinishPart(|s.nibs|, tail))
  {
    assert s.dist + [] == s.dist;
  }

  /** Decoding undoes printing, for every stream of valid tokens with a last block that
      together mean the input, and for both layouts. */
  lemma SectionsRoundTrip(layout: Layout, ts: seq<Token>, tail: seq<word>, pin: seq<byte>, pad: byte, outlen: nat)
    requires Valid(ts) && Printable(ts) && tail != []
    requires Expand(ts) + tail == Pack(pin, pad)
    requires |pin| <= outlen
    ensures Decode(layout, Finish(PrintAll(layout, ts), tail), |pin|, outlen) == Go(pin)
  {
    hide Expand, PrintAll, TakeAll, TakeTail, Valid, BytesOf, Pack, Finish, TailFlag, FinishPart;
    var P := PrintAll(layout, ts);
    var R := FinishPart(|P.nibs|, tail);
    FinishIsPlus(P, tail);
    assert |Expand(ts)| + |tail| == (|pin| + 1) / 2;
    AllTokensRead(layout, ts, tail, |pin|);
    TailOccurs(P, tail);
    TailRoundTrip(P.Plus(R), Behind(P, Expand(ts)), tail, |pin|);
    UnpackPack(pin, pad);
  }

  lemma AllTokensRead(layout: Layout, ts: seq<Token>, tail: seq<word>, inlen: nat)
    requires Valid(ts) && Printable(ts) && 2 * |Expand(ts)| <= inlen
    ensures var P := PrintAll(layout, ts);
            TakeAll(layout, P.Plus(FinishPart(|P.nibs|, tail)), Start, inlen) == Go(Behind(P, Expand(ts)))
  {
    assert ts[..0] == [];
    assert Behind(PrintAll(layout, ts[..0]), Expand(ts[..0])) == Start;
    hide Expand, PrintAll, TakeAll, Valid;
    TokensRoundTrip(layout, ts, 0, FinishPart(|PrintAll(layout, ts).nibs|, tail), inlen);
  }

  /** The last block follows the tokens. */
  lemma TailOccurs(P: Streams, tail: seq<word>)
    ensures var S := P.Plus(FinishPart(|P.nibs|, tail));
            At(S.flag, |P.flag|, TailFlag(|tail|)) && At(S.chars, |P.chars|, tail)
  {
    hide TailFlag;
  }
}
