/** What the LZ16 decoders refuse: a token that does not fit the output or reaches back before
    its start ends the decoding with the error of its first failing check. */
module LzErrors {
  import opened Words
  import opened Nibbles
  import opened Tokens
  import opened LzDecode
  import opened LzRoundTrip

  /** The error of a token behind `out`: literals that do not fit, then a distance that reaches
      before the start, then a match that does not fit. The two-word match is not checked. */
  function ErrorOf(out: seq<word>, t: Token, inlen: nat): Option<int> {
    if t.lits != [] && 2 * (|out| + |t.lits|) > inlen then Some(-3)
    else if t.dist > |out| + |t.lits| then Some(-4)
    else if t.extra > 0 && 2 * (|out| + |t.lits| + t.extra + 2) > inlen then Some(-3)
    else None
  }

  lemma RunRefused(S: Streams, st: St, n: nat, inlen: nat)
    requires n > 0 && At(S.nibs, st.pn, LengthCode(n - 1)) && 2 * (|st.out| + n) > inlen
    ensures TakeLitRun(S, st, inlen) == Fail(-3)
  {
    hide LengthCode;
    LengthRoundTrip(S, st, n - 1, 1);
  }

  /** The literals of levels 1 and 3, or their error. */
  lemma RunOrError(S: Streams, st: St, t: Token, inlen: nat)
    requires At(S.nibs, st.pn, if t.lits != [] then LengthCode(|t.lits| - 1) else []) && At(S.chars, st.pc, t.lits)
    ensures var n := |t.lits|;
            var st' := st.(pn := st.pn + (if n > 0 then |LengthCode(n - 1)| else 0), pc := st.pc + n, out := st.out + t.lits);
            (if n > 0 then TakeLitRun(S, st, inlen) else Go(st))
              == if n > 0 && 2 * (|st.out| + n) > inlen then Fail(-3) else Go(st')
  {
    hide LengthCode, TakeLitRun;
    if t.lits == [] {
      assert st.out + t.lits == st.out;
    } else if 2 * (|st.out| + |t.lits|) > inlen {
      RunRefused(S, st, |t.lits|, inlen);
    } else {
      RunRoundTrip(S, st, t.lits, inlen);
    }
  }

  /** The match part of levels 1 and 3, once the literals are in place. */
  lemma NarrowPartRefused(S: Streams, st: St, t: Token, out: seq<word>, f: byte, inlen: nat)
    requires 1 <= t.dist < MATCH_OFFSET_MAX && t.extra > 0 && ErrorOf(out, t, inlen).Some? && st.out == out + t.lits
    requires t.lits != [] ==> 2 * (|out| + |t.lits|) <= inlen
    requires At(S.flag, st.pf, [f]) && f as nat == Capped(t.extra - 1, 7) * 0x20 + t.dist % 0x20
    requires At(S.nibs, st.pn, CappedCode(t.extra - 1, 7))
    ensures TakeNarrowMatch(S, st, t.dist / 0x20, inlen) == Fail(ErrorOf(out, t, inlen).value)
  {
    hide TakeCapped, At, Capped, CappedCode;
    MatchFields(Capped(t.extra - 1, 7), t.dist);
    AtOne(S.flag, st.pf, f);
    CappedRoundTrip(S, st.(pf := st.pf + 1), t.extra - 1, 7);
  }

  lemma NarrowMatchRefused(S: Streams, P: Streams, t: Token, out: seq<word>, inlen: nat)
    requires 1 <= t.dist < MATCH_OFFSET_MAX && t.extra > 0 && ErrorOf(out, t, inlen).Some?
    requires Occurs(S, P, Print(Narrow, t))
    ensures TakeNarrow(S, Behind(P, out), inlen) == Fail(ErrorOf(out, t, inlen).value)
  {
    hide LengthCode, RestFlag, RestBytes, TakeDistance, TakeCapped, TakeLitRun, TakeNarrowMatch, At, Capped, CappedCode;
    var st := Behind(P, out);
    var n, rest := |t.lits|, t.dist / 0x20;
    DistanceRoundTrip(S, st, if n > 0 then 3 else 2, rest);
    var st1 := st.(pd := st.pd + 1, ps := st.ps + |RestBytes(rest)|);
    var runCode := if n > 0 then LengthCode(n - 1) else [];
    AtSplit(S.nibs, st.pn, runCode, CappedCode(t.extra - 1, 7));
    RunOrError(S, st1, t, inlen);
    if !(n > 0 && 2 * (|out| + n) > inlen) {
      MatchFields(Capped(t.extra - 1, 7), t.dist);
      var f: byte := Capped(t.extra - 1, 7) * 0x20 + t.dist % 0x20;
      NarrowPartRefused(S, st1.(pn := st1.pn + |runCode|, pc := st1.pc + n, out := out + t.lits), t, out, f, inlen);
    }
  }

  lemma NarrowTwoRefused(S: Streams, P: Streams, t: Token, out: seq<word>, inlen: nat)
    requires 1 <= t.dist < MATCH_OFFSET_MAX && t.extra == 0 && ErrorOf(out, t, inlen).Some?
    requires Occurs(S, P, Print(Narrow, t))
    ensures TakeNarrow(S, Behind(P, out), inlen) == Fail(ErrorOf(out, t, inlen).value)
  {
    hide LengthCode, RestFlag, RestBytes, TakeTwo, TakeDistance, TakeLitRun, At;
    var st := Behind(P, out);
    DistanceRoundTrip(S, st, if t.lits != [] then 1 else 0, t.dist);
    RunOrError(S, st.(pd := st.pd + 1, ps := st.ps + |RestBytes(t.dist)|), t, inlen);
  }

  /** The match part of levels 2 and 4. */
  lemma PackedPartRefused(S: Streams, st: St, t: Token, out: seq<word>, f: byte, inlen: nat)
    requires 1 <= t.dist < MATCH_OFFSET_MAX && t.extra > 0 && ErrorOf(out, t, inlen).Some? && st.out == out + t.lits
    requires t.lits != [] ==> 2 * (|out| + |t.lits|) <= inlen
    requires f / 0x20 == Capped(t.extra - 1, 7) && At(S.nibs, st.pn, CappedCode(t.extra - 1, 7))
    ensures TakePackedMatch(S, st, t.dist, f, inlen) == Fail(ErrorOf(out, t, inlen).value)
  {
    hide TakeCapped, At, Capped, CappedCode;
    CappedRoundTrip(S, st, t.extra - 1, 7);
  }

  lemma PackedBareRefused(S: Streams, P: Streams, t: Token, out: seq<word>, inlen: nat)
    requires 1 <= t.dist < MATCH_OFFSET_MAX && t.extra > 0 && t.lits == [] && ErrorOf(out, t, inlen).Some?
    requires Occurs(S, P, Print(Packed, t))
    ensures TakePacked(S, Behind(P, out), inlen) == Fail(ErrorOf(out, t, inlen).value)
  {
    hide RestFlag, RestBytes, TakeDistance, TakeCapped, TakePackedMatch, At, Capped, CappedCode;
    var st := Behind(P, out);
    var rest := t.dist / 0x20;
    DistanceRoundTrip(S, st, 2, rest);
    MatchFields(Capped(t.extra - 1, 7), t.dist);
    AtOne<byte>(S.flag, st.pf, Capped(t.extra - 1, 7) * 0x20 + t.dist % 0x20);
    assert out + t.lits == out;
    var f: byte := Capped(t.extra - 1, 7) * 0x20 + t.dist % 0x20;
    PackedPartRefused(S, st.(pd := st.pd + 1, ps := st.ps + |RestBytes(rest)|, pf := st.pf + 1), t, out, f, inlen);
  }

  lemma PackedTwoRefused(S: Streams, P: Streams, t: Token, out: seq<word>, inlen: nat)
    requires 1 <= t.dist < MATCH_OFFSET_MAX && t.extra == 0 && t.lits == [] && ErrorOf(out, t, inlen).Some?
    requires Occurs(S, P, Print(Packed, t))
    ensures TakePacked(S, Behind(P, out), inlen) == Fail(ErrorOf(out, t, inlen).value)
  {
    hide RestFlag, RestBytes, TakeTwo, TakeDistance;
    var st := Behind(P, out);
    DistanceRoundTrip(S, st, 0, t.dist / 0x100);
    AtTwo(S.nibs, st.pn, t.dist % 0x100 % 16, t.dist % 0x100 / 16);
  }

  /** The literals of levels 2 and 4, or their error. */
  lemma PackedLitsOrError(S: Streams, st: St, lits: seq<word>, inlen: nat)
    requires |lits| > 0 && At(S.nibs, st.pn, CappedCode(|lits| - 1, 3)) && At(S.chars, st.pc, lits)
    ensures var st1 := st.(pn := st.pn + |CappedCode(|lits| - 1, 3)|);
            && TakeCapped(S, st, Capped(|lits| - 1, 3), 3) == Go((|lits| - 1, st1))
            && TakeLits(S, st1, |lits|, inlen)
                 == if 2 * (|st.out| + |lits|) > inlen then Fail(-3) else Go(st1.(pc := st.pc + |lits|, out := st.out + lits))
  {
    hide TakeCapped, Capped, CappedCode;
    CappedRoundTrip(S, st, |lits| - 1, 3);
  }

  lemma PackedLitsMatchRefused(S: Streams, P: Streams, t: Token, out: seq<word>, inlen: nat)
    requires 1 <= t.dist < MATCH_OFFSET_MAX && t.extra > 0 && t.lits != [] && ErrorOf(out, t, inlen).Some?
    requires Occurs(S, P, Print(Packed, t))
    ensures TakePacked(S, Behind(P, out), inlen) == Fail(ErrorOf(out, t, inlen).value)
  {
    hide RestFlag, RestBytes, TakeDistance, TakeCapped, TakeLits, TakePackedMatch, At, Capped, CappedCode;
    var st := Behind(P, out);
    var n, rest := |t.lits|, t.dist / 0x8;
    DistanceRoundTrip(S, st, 3, rest);
    PackedFields(Capped(t.extra - 1, 7), Capped(n - 1, 3), t.dist);
    AtOne<byte>(S.flag, st.pf, Capped(t.extra - 1, 7) * 0x20 + Capped(n - 1, 3) * 0x8 + t.dist % 0x8);
    var st2 := st.(pd := st.pd + 1, ps := st.ps + |RestBytes(rest)|, pf := st.pf + 1);
    AtSplit(S.nibs, st.pn, CappedCode(n - 1, 3), CappedCode(t.extra - 1, 7));
    PackedLitsOrError(S, st2, t.lits, inlen);
    if 2 * (|out| + n) <= inlen {
      var f: byte := Capped(t.extra - 1, 7) * 0x20 + Capped(n - 1, 3) * 0x8 + t.dist % 0x8;
      PackedPartRefused(S, st2.(pn := st2.pn + |CappedCode(n - 1, 3)|, pc := st.pc + n, out := out + t.lits), t, out, f, inlen);
    }
  }

  lemma PackedLitsTwoRefused(S: Streams, P: Streams, t: Token, out: seq<word>, inlen: nat)
    requires 1 <= t.dist < MATCH_OFFSET_MAX && t.extra == 0 && t.lits != [] && ErrorOf(out, t, inlen).Some?
    requires Occurs(S, P, Print(Packed, t))
    ensures TakePacked(S, Behind(P, out), inlen) == Fail(ErrorOf(out, t, inlen).value)
  {
    hide RestFlag, RestBytes, TakeTwo, TakeDistance, TakeCapped, TakeLits, At, Capped, CappedCode;
    var st := Behind(P, out);
    var n, rest := |t.lits|, t.dist / 0x40;
    DistanceRoundTrip(S, st, 1, rest);
    RunFields(n, t.dist);
    AtOne<byte>(S.flag, st.pf, Capped(n - 1, 3) * 0x40 + t.dist % 0x40);
    PackedLitsOrError(S, st.(pd := st.pd + 1, ps := st.ps + |RestBytes(rest)|, pf := st.pf + 1), t.lits, inlen);
  }

  /** The flag byte `ccdd dddd`. */
  lemma RunFields(n: nat, d: nat)
    requires n > 0
    ensures var f := Capped(n - 1, 3) * 0x40 + d % 0x40;
            f < 0x100 && f / 0x40 == Capped(n - 1, 3) && f % 0x40 == d % 0x40 && d / 0x40 * 0x40 + f % 0x40 == d
  {
  }

  /** One token with an error, either layout. */
  lemma TokenRefused(layout: Layout, S: Streams, P: Streams, t: Token, out: seq<word>, inlen: nat)
    requires 1 <= t.dist < MATCH_OFFSET_MAX && ErrorOf(out, t, inlen).Some?
    requires Occurs(S, P, Print(layout, t))
    ensures TakeToken(layout, S, Behind(P, out), inlen) == Fail(ErrorOf(out, t, inlen).value)
  {
    hide TakeNarrow, TakePacked, PrintNarrow, PrintPacked, ErrorOf;
    if layout == Narrow {
      if t.extra > 0 { NarrowMatchRefused(S, P, t, out, inlen); } else { NarrowTwoRefused(S, P, t, out, inlen); }
    } else if t.lits == [] {
      if t.extra > 0 { PackedBareRefused(S, P, t, out, inlen); } else { PackedTwoRefused(S, P, t, out, inlen); }
    } else {
      if t.extra > 0 { PackedLitsMatchRefused(S, P, t, out, inlen); } else { PackedLitsTwoRefused(S, P, t, out, inlen); }
    }
  }

  // --------------------------------------------------------------- whole streams

  lemma {:induction false} BadTokenReached(layout: Layout, ts: seq<Token>, t: Token, k: nat, R: Streams, inlen: nat)
    requires Valid(ts) && Printable(ts + [t]) && k <= |ts| && R.dflag != []
    requires 2 * |Expand(ts)| <= inlen && ErrorOf(Expand(ts), t, inlen).Some?
    ensures Printable(ts[..k])
    ensures TakeAll(layout, PrintAll(layout, ts + [t]).Plus(R), Behind(PrintAll(layout, ts[..k]), Expand(ts[..k])), inlen)
         == Fail(ErrorOf(Expand(ts), t, inlen).value)
    decreases |ts| - k
  {
    hide Print, Occurs, TakeToken, Apply, Expand, Applies, Valid, ErrorOf;
    var all := ts + [t];
    var S := PrintAll(layout, all).Plus(R);
    assert all[..k] == ts[..k];
    FlagPerToken(layout, all);
    FlagPerToken(layout, ts[..k]);
    TokenOccurs(layout, all, k, R);
    if k == |ts| {
      assert ts[..k] == ts;
      TokenRefused(layout, S, PrintAll(layout, ts), t, Expand(ts), inlen);
    } else {
      ValidPrefix(ts, k);
      TokenRoundTrip(layout, S, PrintAll(layout, ts[..k]), ts[k], Expand(ts[..k]), inlen);
      assert ts[..k + 1][..k] == ts[..k] && ts[..k + 1][k] == ts[k];
      BadTokenReached(layout, ts, t, k + 1, R, inlen);
    }
  }

  /** A stream is decoded up to its first bad token and refused there with that token's error,
      whatever follows; one longer than the output is refused at once. */
  lemma StreamRefused(layout: Layout, ts: seq<Token>, t: Token, R: Streams, inlen: nat, outlen: nat)
    requires Valid(ts) && Printable(ts + [t]) && R.dflag != []
    requires 2 * |Expand(ts)| <= inlen && ErrorOf(Expand(ts), t, inlen).Some?
    ensures Decode(layout, PrintAll(layout, ts + [t]).Plus(R), inlen, outlen)
         == Fail(if inlen > outlen then -2 else ErrorOf(Expand(ts), t, inlen).value)
  {
    hide TakeAll, ErrorOf, Valid;
    if inlen <= outlen {
      BadTokenReached(layout, ts, t, 0, R, inlen);
      assert ts[..0] == [];
    }
  }
}
