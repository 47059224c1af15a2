/** LZVN opcodes: what the printer writes for literals and a match, and the parser that
    reads them back. */
module Lzvn {
  import opened Arith
  import opened Words
  import opened Tokens

  const MAX_DISTANCE := 0x1_0000

  function Min(a: nat, b: nat): nat {
    if a < b then a else b
  }

  // ------------------------------------------------------------------- the printer

  /** Literals in runs of up to 271, until at most 15 are left. */
  function LitRuns(p: seq<byte>): seq<byte>
    decreases |p|
  {
    if |p| <= 15 then []
    else
      var x := Min(|p|, 271);
      [0xE0, x - 16] + p[..x] + LitRuns(p[x..])
  }

  /** How many literals are left behind the runs. */
  function Leftover(n: nat): (l: nat)
    ensures l <= 15 && l <= n
    decreases n
  {
    if n <= 15 then n else Leftover(n - Min(n, 271))
  }

  /** The final literals. */
  function PrintLiteral(p: seq<byte>): seq<byte> {
    var l := Leftover(|p|);
    LitRuns(p) + if l == 0 then [] else [0xE0 + l] + p[|p| - l..]
  }

  /** A match of the previous distance. */
  function MatchRuns(m: nat): seq<byte> {
    if m == 0 then []
    else if m <= 15 then [0xF0 + m]
    else [0xF0, Min(m, 271) - 16] + MatchRuns(m - Min(m, 271))
  }

  /** Part of the match the opcode with the literals takes. */
  function FirstPart(l: nat, m: nat): (x: nat)
    requires l <= 3 && m >= 3
    ensures 3 <= x <= m && x <= 10 - 2 * l
  {
    Min(m, 10 - 2 * l)
  }

  /** A distance of up to 14 bits that is not short lets the opcode take the whole match. */
  predicate IsMedium(l: nat, m: nat, d: nat, prev: nat)
    requires l <= 3 && m >= 3
  {
    d != prev && 2048 - 2 * 256 <= d < 0x4000 && FirstPart(l, m) < m <= 34
  }

  /** How much of the match the opcode takes. */
  function Taken(l: nat, m: nat, d: nat, prev: nat): (x: nat)
    requires l <= 3 && m >= 3
    ensures 3 <= x <= m
  {
    if IsMedium(l, m, d, prev) then m else FirstPart(l, m)
  }

  /** The opcode for at most three literals and a match, without the literals. */
  function Opcode(l: nat, m: nat, d: nat, prev: nat): (op: seq<byte>)
    requires l <= 3 && m >= 3 && 0 < d < MAX_DISTANCE
    ensures 1 <= |op| <= 3
  {
    var x := FirstPart(l, m) - 3;
    if d == prev then [if l == 0 then 0xF0 + x + 3 else l * 64 + x * 8 + 6]
    else if d < 2048 - 2 * 256 then [d / 256 + l * 64 + x * 8, d % 256]
    else if IsMedium(l, m, d, prev) then
      var w := d * 4 + (m - 3) % 4;
      [0xA0 + (m - 3) / 4 + l * 8, w % 256, w / 256]
    else [l * 64 + x * 8 + 7, d % 256, d / 256]
  }

  /** Opcode, literals, and the rest of the match. */
  function PrintOp(r: seq<byte>, m: nat, d: nat, prev: nat): seq<byte>
    requires |r| <= 3 && m >= 3 && 0 < d < MAX_DISTANCE
  {
    Opcode(|r|, m, d, prev) + r + MatchRuns(m - Taken(|r|, m, d, prev))
  }

  /** Literals that travel with the match; four or more get an opcode of their own. */
  function Carried(n: nat): (l: nat)
    ensures l <= 3 && l <= n
  {
    if Leftover(n) > 3 then 0 else Leftover(n)
  }

  /** Everything in front of the opcode with the match. */
  function Front(p: seq<byte>): seq<byte> {
    if Carried(|p|) == Leftover(|p|) then LitRuns(p) else PrintLiteral(p)
  }

  /** All opcodes for the literals `p` and a match. */
  function Print(p: seq<byte>, m: nat, d: nat, prev: nat): seq<byte>
    requires m >= 3 && 0 < d < MAX_DISTANCE
  {
    Front(p) + PrintOp(p[|p| - Carried(|p|)..], m, d, prev)
  }

  // -------------------------------------------------------------------- the parser

  /** What is still to be read, what has been written, and the last distance. */
  datatype Dec = Dec(src: seq<byte>, out: seq<byte>, d: nat)

  /** How one opcode ends. */
  datatype Outcome = Next(st: Dec) | Truncated | Full | Bad | End | Undefined

  /** `n` literals behind an opcode of `opcLen` bytes. A byte of the next opcode must follow. */
  function CopyLiteral(st: Dec, opcLen: nat, n: nat, cap: nat): (r: Outcome)
    requires |st.out| <= cap
    ensures r.Next? ==> |r.st.src| + opcLen <= |st.src| && |r.st.out| <= cap
    ensures !r.End?
  {
    if |st.src| <= opcLen + n then Truncated
    else if |st.out| + n > cap then Full
    else Next(Dec(st.src[opcLen + n..], st.out + st.src[opcLen..opcLen + n], st.d))
  }

  /** A match of the last distance, which is not checked again. */
  function CopyAgain(st: Dec, opcLen: nat, m: nat, cap: nat): (r: Outcome)
    requires |st.out| <= cap
    ensures r.Next? ==> |r.st.src| + opcLen <= |st.src| && |r.st.out| <= cap
    ensures !r.End?
  {
    if |st.src| <= opcLen then Truncated
    else if st.d == 0 || st.d > |st.out| then Undefined
    else if |st.out| + m > cap then Full
    else Next(Dec(st.src[opcLen..], CopyMatch(st.out, st.d, m), st.d))
  }

  /** Literals and a match. */
  function CopyBoth(st: Dec, opcLen: nat, l: nat, m: nat, d: nat, cap: nat): (r: Outcome)
    requires |st.out| <= cap && |st.src| > opcLen + l
    ensures r.Next? ==> |r.st.src| + opcLen <= |st.src| && |r.st.out| <= cap
    ensures !r.End?
  {
    var out := st.out + st.src[opcLen..opcLen + l];
    if |out| > cap then Full
    else if d > |out| || d == 0 then Bad
    else if |out| + m > cap then Full
    else Next(Dec(st.src[opcLen + l..], CopyMatch(out, d, m), d))
  }

  /** The opcodes that carry literals and a match, by their first byte. */
  function Shared(st: Dec, cap: nat): (r: Outcome)
    requires |st.out| <= cap && st.src != []
    ensures r.Next? ==> |r.st.src| < |st.src| && |r.st.out| <= cap
    ensures !r.End?
  {
    var opc: nat := st.src[0];
    var l, m := opc / 64, opc / 8 % 8 + 3;
    if opc % 8 == 6 then
      if |st.src| <= 1 + l then Truncated else CopyBoth(st, 1, l, m, st.d, cap)
    else if opc % 8 == 7 then
      if |st.src| <= 3 + l then Truncated
      else
        var high: nat := st.src[2];
        CopyBoth(st, 3, l, m, st.src[1] + 256 * high, cap)
    else
      if |st.src| <= 2 + l then Truncated else CopyBoth(st, 2, l, m, opc % 8 * 256 + st.src[1], cap)
  }

  /** Medium distances, with two more bits for the match. */
  function Medium(st: Dec, cap: nat): (r: Outcome)
    requires |st.out| <= cap && st.src != []
    ensures r.Next? ==> |r.st.src| < |st.src| && |r.st.out| <= cap
    ensures !r.End?
  {
    var opc: nat := st.src[0];
    var l := opc / 8 % 4;
    if |st.src| <= 3 + l then Truncated
    else
      var high: nat := st.src[2];
      var w := st.src[1] + 256 * high;
      CopyBoth(st, 3, l, opc % 8 * 4 + w % 4 + 3, w / 4, cap)
  }

  /** The length behind a two-byte opcode. */
  function Long(src: seq<byte>): nat
    requires |src| >= 2
  {
    var n: nat := src[1];
    n + 16
  }

  /** One opcode of lzvn_decode. */
  function Step(st: Dec, cap: nat): (r: Outcome)
    requires |st.out| <= cap
    ensures r.Next? ==> |r.st.src| < |st.src| && |r.st.out| <= cap
    ensures r.End? ==> |st.src| >= 8
  {
    if st.src == [] then Truncated
    else
      var opc: nat := st.src[0];
      if opc == 6 then (if |st.src| < 8 then Truncated else End)
      else if opc == 14 || opc == 22 then CopyLiteral(st, 1, 0, cap)
      else if 0xA0 <= opc < 0xC0 then Medium(st, cap)
      else if opc == 0xE0 then
        if |st.src| <= 2 then Truncated else CopyLiteral(st, 2, Long(st.src), cap)
      else if 0xE0 < opc < 0xF0 then CopyLiteral(st, 1, opc % 16, cap)
      else if opc == 0xF0 then
        if |st.src| <= 2 then Truncated else CopyAgain(st, 2, Long(st.src), cap)
      else if opc > 0xF0 then CopyAgain(st, 1, opc % 16, cap)
      else if 0x70 <= opc < 0x80 || 0xD0 <= opc < 0xE0 || (opc < 64 && opc % 8 == 6) then Bad
      else Shared(st, cap)
  }

  /** Opcodes until one of them does not lead to the next. The cursor stays at that opcode,
      or goes behind the eight bytes of an end marker. */
  function Decode(st: Dec, cap: nat): (Outcome, Dec)
    requires |st.out| <= cap
    decreases |st.src|
  {
    match Step(st, cap)
    case Next(st') => Decode(st', cap)
    case End => (End, st.(src := st.src[8..]))
    case r => (r, st)
  }

  /** lzvn_decode: it leaves an empty source and a full destination alone. */
  function LzvnDecode(st: Dec, cap: nat): (Outcome, Dec)
    requires |st.out| <= cap
  {
    if st.src == [] then (Truncated, st)
    else if |st.out| == cap then (Full, st)
    else Decode(st, cap)
  }

  // ---------------------------------------------------------------- reading back

  /** Which opcode the parser takes a first byte for. */
  lemma StepLong(st: Dec, cap: nat)
    requires |st.out| <= cap && |st.src| > 2
    ensures st.src[0] == 0xE0 ==> Step(st, cap) == CopyLiteral(st, 2, Long(st.src), cap)
    ensures st.src[0] == 0xF0 ==> Step(st, cap) == CopyAgain(st, 2, Long(st.src), cap)
  {
    hide Shared, Medium, CopyLiteral, CopyAgain, CopyBoth, CopyMatch, Long;
  }

  lemma StepShort(st: Dec, cap: nat)
    requires |st.out| <= cap && st.src != []
    ensures 0xE0 < st.src[0] < 0xF0 ==> Step(st, cap) == CopyLiteral(st, 1, st.src[0] - 0xE0, cap)
    ensures 0xF0 < st.src[0] ==> Step(st, cap) == CopyAgain(st, 1, st.src[0] - 0xF0, cap)
  {
    hide Shared, Medium, CopyLiteral, CopyAgain, CopyBoth, CopyMatch, Long;
  }

  lemma StepShared(st: Dec, cap: nat)
    requires |st.out| <= cap && st.src != []
    requires var opc := st.src[0];
             opc < 0xD0 && !(0x70 <= opc < 0x80) && !(0xA0 <= opc < 0xC0) && (opc < 64 ==> opc % 8 != 6)
    ensures Step(st, cap) == Shared(st, cap)
  {
    hide Shared, Medium, CopyLiteral, CopyAgain, CopyBoth, CopyMatch, Long;
  }

  lemma StepMedium(st: Dec, cap: nat)
    requires |st.out| <= cap && st.src != [] && 0xA0 <= st.src[0] < 0xC0
    ensures Step(st, cap) == Medium(st, cap)
  {
    hide Shared, Medium, CopyLiteral, CopyAgain, CopyBoth, CopyMatch, Long;
  }

  lemma DecodeNext(st: Dec, cap: nat)
    requires |st.out| <= cap && Step(st, cap).Next?
    ensures Decode(st, cap) == Decode(Step(st, cap).st, cap)
  {
    hide Step;
  }

  /** A literal run is read back, and decoding goes on behind it. */
  lemma LiteralRun(p: seq<byte>, rest: seq<byte>, out: seq<byte>, d: nat, cap: nat)
    requires 16 <= |p| <= 271 && rest != [] && |out| + |p| <= cap
    ensures Decode(Dec([0xE0, |p| - 16] + p + rest, out, d), cap) == Decode(Dec(rest, out + p, d), cap)
  {
    hide Step, Decode;
    var st := Dec([0xE0, |p| - 16] + p + rest, out, d);
    assert st.src[2..2 + |p|] == p && st.src[2 + |p|..] == rest;
    StepLong(st, cap);
    DecodeNext(st, cap);
  }

  lemma ShortLiteral(p: seq<byte>, rest: seq<byte>, out: seq<byte>, d: nat, cap: nat)
    requires 1 <= |p| <= 15 && rest != [] && |out| + |p| <= cap
    ensures Decode(Dec([0xE0 + |p|] + p + rest, out, d), cap) == Decode(Dec(rest, out + p, d), cap)
  {
    hide Step, Decode;
    var st := Dec([0xE0 + |p|] + p + rest, out, d);
    assert st.src[1..1 + |p|] == p && st.src[1 + |p|..] == rest;
    StepShort(st, cap);
    DecodeNext(st, cap);
  }

  /** The first run and the others. */
  lemma LitRunsFirst(p: seq<byte>)
    requires |p| > 15
    ensures var x := Min(|p|, 271);
            && LitRuns(p) == [0xE0, x - 16] + p[..x] + LitRuns(p[x..])
            && Leftover(|p|) == Leftover(|p| - x) <= |p| - x
  {
  }

  lemma LitRunsNone(p: seq<byte>)
    requires |p| <= 15
    ensures LitRuns(p) == [] && Leftover(|p|) == |p|
  {
  }

  lemma {:induction false} LitRunsRead(p: seq<byte>, rest: seq<byte>, out: seq<byte>, d: nat, cap: nat)
    requires rest != [] && |out| + |p| <= cap
    ensures Decode(Dec(LitRuns(p) + rest, out, d), cap)
         == Decode(Dec(rest, out + p[..|p| - Leftover(|p|)], d), cap)
    decreases |p|
  {
    hide Decode, LitRuns, Leftover;
    if |p| <= 15 {
      LitRunsNone(p);
      assert [] + rest == rest && out + p[..0] == out;
    } else {
      var x := Min(|p|, 271);
      LitRunsFirst(p);
      var tail := p[x..];
      Regroup([0xE0, x - 16] + p[..x], LitRuns(tail), rest);
      LiteralRun(p[..x], LitRuns(tail) + rest, out, d, cap);
      LitRunsRead(tail, rest, out + p[..x], d, cap);
      Rejoin(p, x, |p| - Leftover(|p|), out);
    }
  }

  lemma Regroup(a: seq<byte>, b: seq<byte>, c: seq<byte>)
    ensures a + b + c == a + (b + c)
  {
  }

  lemma Rejoin(p: seq<byte>, x: nat, y: nat, out: seq<byte>)
    requires x <= y <= |p|
    ensures out + p[..x] + p[x..][..y - x] == out + p[..y]
  {
    assert p[..y] == p[..x] + p[x..][..y - x];
  }

  /** emit_literal is read back. */
  lemma LiteralRoundTrip(p: seq<byte>, rest: seq<byte>, out: seq<byte>, d: nat, cap: nat)
    requires rest != [] && |out| + |p| <= cap
    ensures Decode(Dec(PrintLiteral(p) + rest, out, d), cap) == Decode(Dec(rest, out + p, d), cap)
  {
    hide Decode, LitRuns;
    var l := Leftover(|p|);
    var front := out + p[..|p| - l];
    if l == 0 {
      assert LitRuns(p) + [] + rest == LitRuns(p) + rest;
      LitRunsRead(p, rest, out, d, cap);
      assert front == out + p;
    } else {
      var tail := p[|p| - l..];
      assert PrintLiteral(p) + rest == LitRuns(p) + ([0xE0 + l] + tail + rest);
      LitRunsRead(p, [0xE0 + l] + tail + rest, out, d, cap);
      ShortLiteral(tail, rest, front, d, cap);
      assert front + tail == out + p;
    }
  }

  /** Copying on at the same distance continues the copy. */
  lemma {:induction false} CopyContinues<T>(out: seq<T>, d: nat, a: nat, b: nat)
    requires 1 <= d <= |out|
    ensures CopyMatch(CopyMatch(out, d, a), d, b) == CopyMatch(out, d, a + b)
    decreases b
  {
    hide CopyMatch;
    if b == 0 {
      NoCopy(CopyMatch(out, d, a), d);
    } else {
      CopyContinues(out, d, a, b - 1);
      OneMore(CopyMatch(out, d, a), d, b);
      OneMore(out, d, a + b);
    }
  }

  lemma OneMore<T>(out: seq<T>, d: nat, n: nat)
    requires 1 <= d <= |out| && n > 0
    ensures var r := CopyMatch(out, d, n - 1);
            CopyMatch(out, d, n) == r + [r[|r| - d]]
  {
  }

  /** A match of the last distance, in as many opcodes as it takes. */
  lemma {:induction false} MatchRunsRead(m: nat, rest: seq<byte>, out: seq<byte>, d: nat, cap: nat)
    requires rest != [] && 1 <= d <= |out| && |out| + m <= cap
    ensures Decode(Dec(MatchRuns(m) + rest, out, d), cap) == Decode(Dec(rest, CopyMatch(out, d, m), d), cap)
    decreases m
  {
    hide CopyMatch, Decode, Step;
    if m == 0 {
      assert [] + rest == rest;
      NoCopy(out, d);
    } else if m <= 15 {
      FirstAgain(m, rest, out, d, cap);
    } else {
      var x := Min(m, 271);
      var more := MatchRuns(m - x) + rest;
      assert MatchRuns(m) + rest == [0xF0, x - 16] + more;
      LongAgain(x, more, out, d, cap);
      MatchRunsRead(m - x, rest, CopyMatch(out, d, x), d, cap);
      CopyContinues(out, d, x, m - x);
    }
  }

  lemma NoCopy<T>(out: seq<T>, d: nat)
    requires 1 <= d <= |out|
    ensures CopyMatch(out, d, 0) == out
  {
  }

  /** The opcode part alone: literals, then the first part of the match. */
  lemma OpRead(op: seq<byte>, r: seq<byte>, more: seq<byte>, x: nat, d: nat, prev: nat, out: seq<byte>, cap: nat)
    requires more != [] && |r| <= 3 && 1 <= d <= |out| + |r| && |out| + |r| + x <= cap && op != []
    requires 1 <= |op| <= 3
    requires Step(Dec(op + r + more, out, prev), cap) == CopyBoth(Dec(op + r + more, out, prev), |op|, |r|, x, d, cap)
    ensures Decode(Dec(op + r + more, out, prev), cap) == Decode(Dec(more, CopyMatch(out + r, d, x), d), cap)
  {
    hide CopyMatch, Step, Decode;
    var src := op + r + more;
    assert src[|op|..|op| + |r|] == r && src[|op| + |r|..] == more;
    DecodeNext(Dec(src, out, prev), cap);
  }

  /** Every form the printer chooses is parsed as that form. */
  lemma PreviousForm(r: seq<byte>, more: seq<byte>, x: nat, d: nat, out: seq<byte>, cap: nat)
    requires 1 <= |r| <= 3 && x <= 7 - 2 * |r| && more != [] && |out| <= cap
    ensures var st := Dec([|r| * 64 + x * 8 + 6] + r + more, out, d);
            Step(st, cap) == CopyBoth(st, 1, |r|, x + 3, d, cap)
  {
    hide CopyBoth, Step;
    OpBits(|r|, x, 6);
    StepShared(Dec([|r| * 64 + x * 8 + 6] + r + more, out, d), cap);
  }

  lemma ShortForm(r: seq<byte>, more: seq<byte>, x: nat, d: nat, prev: nat, out: seq<byte>, cap: nat)
    requires |r| <= 3 && x <= 7 - 2 * |r| && more != [] && |out| <= cap && d < 1536
    ensures var st := Dec([d / 256 + |r| * 64 + x * 8, d % 256] + r + more, out, prev);
            Step(st, cap) == CopyBoth(st, 2, |r|, x + 3, d, cap)
  {
    hide CopyBoth, Step;
    OpBits(|r|, x, d / 256);
    StepShared(Dec([d / 256 + |r| * 64 + x * 8, d % 256] + r + more, out, prev), cap);
  }

  lemma LongForm(r: seq<byte>, more: seq<byte>, x: nat, d: nat, prev: nat, out: seq<byte>, cap: nat)
    requires |r| <= 3 && x <= 7 - 2 * |r| && more != [] && |out| <= cap && d < MAX_DISTANCE
    ensures var st := Dec([|r| * 64 + x * 8 + 7, d % 256, d / 256] + r + more, out, prev);
            Step(st, cap) == CopyBoth(st, 3, |r|, x + 3, d, cap)
  {
    hide CopyBoth, Step;
    OpBits(|r|, x, 7);
    StepShared(Dec([|r| * 64 + x * 8 + 7, d % 256, d / 256] + r + more, out, prev), cap);
  }

  lemma MediumRead(st: Dec, l: nat, m: nat, d: nat, cap: nat)
    requires |st.out| <= cap && 3 <= m && |st.src| > 3 + l
    requires st.src[0] % 8 == (m - 3) / 4 && st.src[0] / 8 % 4 == l
    requires var w := st.src[1] + 256 * st.src[2] as nat; w / 4 == d && (m - 3) / 4 * 4 + w % 4 + 3 == m
    ensures Medium(st, cap) == CopyBoth(st, 3, l, m, d, cap)
  {
    hide CopyBoth;
  }

  lemma MediumForm(r: seq<byte>, more: seq<byte>, m: nat, d: nat, prev: nat, out: seq<byte>, cap: nat)
    requires |r| <= 3 && 3 <= m <= 34 && more != [] && |out| <= cap && d < 0x4000
    ensures var w := d * 4 + (m - 3) % 4;
            var st := Dec([0xA0 + (m - 3) / 4 + |r| * 8, w % 256, w / 256] + r + more, out, prev);
            Step(st, cap) == CopyBoth(st, 3, |r|, m, d, cap)
  {
    hide CopyBoth, Step, Medium;
    MediumBits(|r|, (m - 3) / 4);
    MediumFields(m, d);
    var w := d * 4 + (m - 3) % 4;
    var st := Dec([0xA0 + (m - 3) / 4 + |r| * 8, w % 256, w / 256] + r + more, out, prev);
    StepMedium(st, cap);
    MediumRead(st, |r|, m, d, cap);
  }

  lemma MediumBits(l: nat, x: nat)
    requires l <= 3 && x <= 7
    ensures var opc := 0xA0 + x + l * 8;
            opc % 8 == x && opc / 8 % 4 == l && 0xA0 <= opc < 0xC0
  {
    DivModUnique(0xA0 + x + l * 8, 8, 20 + l, x);
    DivModUnique(20 + l, 4, 5, l);
  }

  /** The two bytes behind a medium opcode: the distance above two bits of the match. */
  lemma MediumFields(m: nat, d: nat)
    requires 3 <= m <= 34 && d < 0x4000
    ensures var w := d * 4 + (m - 3) % 4;
            && w / 4 == d && (m - 3) / 4 * 4 + w % 4 + 3 == m
            && w / 256 < 256 && w % 256 + 256 * (w / 256) == w
  {
    var w := d * 4 + (m - 3) % 4;
    DivModUnique(w, 4, d, (m - 3) % 4);
    DivBetween(w, 256, 0, 256);
  }

  lemma OpBits(l: nat, x: nat, k: nat)
    requires l <= 3 && x <= 7 - 2 * l && k < 8
    ensures var opc := l * 64 + x * 8 + k;
            && opc / 64 == l && opc / 8 % 8 == x && opc % 8 == k && opc < 0xD0
            && !(0x70 <= opc < 0x80) && !(0xA0 <= opc < 0xC0)
  {
    var opc := l * 64 + x * 8 + k;
    DivModUnique(opc, 64, l, x * 8 + k);
    DivModUnique(opc, 8, l * 8 + x, k);
    DivModUnique(l * 8 + x, 8, l, x);
    assert l == 0 || l == 1 || l == 2 || l == 3;
  }

  /** Whichever form the printer chose, the parser finds that form. */
  lemma FormRead(r: seq<byte>, m: nat, d: nat, prev: nat, more: seq<byte>, out: seq<byte>, cap: nat)
    requires |r| <= 3 && m >= 3 && 0 < d < MAX_DISTANCE && more != [] && |out| <= cap
    requires d != prev || r != []
    ensures var op := Opcode(|r|, m, d, prev);
            var st := Dec(op + r + more, out, prev);
            Step(st, cap) == CopyBoth(st, |op|, |r|, Taken(|r|, m, d, prev), d, cap)
  {
    hide Step, CopyBoth;
    var x := FirstPart(|r|, m) - 3;
    if d == prev {
      PreviousForm(r, more, x, d, out, cap);
    } else if d < 1536 {
      ShortForm(r, more, x, d, prev, out, cap);
    } else if IsMedium(|r|, m, d, prev) {
      MediumForm(r, more, m, d, prev, out, cap);
    } else {
      LongForm(r, more, x, d, prev, out, cap);
    }
  }

  /** The opcode with the match is read back, whichever form it has. */
  lemma OpRoundTrip(r: seq<byte>, m: nat, d: nat, prev: nat, rest: seq<byte>, out: seq<byte>, cap: nat)
    requires |r| <= 3 && m >= 3 && 0 < d < MAX_DISTANCE && rest != []
    requires d <= |out| + |r| && |out| + |r| + m <= cap
    ensures Decode(Dec(PrintOp(r, m, d, prev) + rest, out, prev), cap)
         == Decode(Dec(rest, CopyMatch(out + r, d, m), d), cap)
  {
    hide Decode, Step, MatchRuns, CopyMatch;
    var op, x := Opcode(|r|, m, d, prev), Taken(|r|, m, d, prev);
    var more := MatchRuns(m - x) + rest;
    assert PrintOp(r, m, d, prev) + rest == op + r + more;
    if d == prev && r == [] {
      assert out + r == out && op + r + more == [0xF0 + x] + more;
      FirstAgain(x, more, out, d, cap);
    } else {
      hide Opcode, Taken;
      FormRead(r, m, d, prev, more, out, cap);
      OpRead(op, r, more, x, d, prev, out, cap);
    }
    MatchRunsRead(m - x, rest, CopyMatch(out + r, d, x), d, cap);
    CopyContinues(out + r, d, x, m - x);
  }

  lemma FirstAgain(x: nat, more: seq<byte>, out: seq<byte>, d: nat, cap: nat)
    requires 1 <= x <= 15 && more != [] && 1 <= d <= |out| && |out| + x <= cap
    ensures Decode(Dec([0xF0 + x] + more, out, d), cap) == Decode(Dec(more, CopyMatch(out, d, x), d), cap)
  {
    hide CopyMatch, Decode, Step;
    var st := Dec([0xF0 + x] + more, out, d);
    assert st.src[1..] == more;
    StepShort(st, cap);
    DecodeNext(st, cap);
  }

  lemma LongAgain(x: nat, more: seq<byte>, out: seq<byte>, d: nat, cap: nat)
    requires 16 <= x <= 271 && more != [] && 1 <= d <= |out| && |out| + x <= cap
    ensures Decode(Dec([0xF0, x - 16] + more, out, d), cap) == Decode(Dec(more, CopyMatch(out, d, x), d), cap)
  {
    hide CopyMatch, Decode, Step;
    var st := Dec([0xF0, x - 16] + more, out, d);
    assert st.src[2..] == more;
    StepLong(st, cap);
    DecodeNext(st, cap);
  }

  /** The printer is inverted: from any state whose last distance is the one the printer
      assumed, the opcodes append the literals and then the match, and nothing else. */
  lemma PrintRoundTrip(p: seq<byte>, m: nat, d: nat, prev: nat, rest: seq<byte>, out: seq<byte>, cap: nat)
    requires m >= 3 && 0 < d < MAX_DISTANCE && rest != []
    requires d <= |out| + |p| && |out| + |p| + m <= cap
    ensures Decode(Dec(Print(p, m, d, prev) + rest, out, prev), cap)
         == Decode(Dec(rest, CopyMatch(out + p, d, m), d), cap)
  {
    hide Decode, LitRuns, PrintLiteral, PrintOp, CopyMatch, Leftover, Front;
    var l := Carried(|p|);
    var r := p[|p| - l..];
    var more := PrintOp(r, m, d, prev) + rest;
    OpNotEmpty(r, m, d, prev);
    FrontRead(p, more, out, prev, cap);
    Regroup(Front(p), PrintOp(r, m, d, prev), rest);
    OpRoundTrip(r, m, d, prev, rest, out + p[..|p| - l], cap);
    assert out + p[..|p| - l] + r == out + p;
  }

  lemma OpNotEmpty(r: seq<byte>, m: nat, d: nat, prev: nat)
    requires |r| <= 3 && m >= 3 && 0 < d < MAX_DISTANCE
    ensures PrintOp(r, m, d, prev) != []
  {
    hide MatchRuns, Opcode;
  }

  /** The literals that do not travel with the match. */
  lemma FrontRead(p: seq<byte>, more: seq<byte>, out: seq<byte>, d: nat, cap: nat)
    requires more != [] && |out| + |p| <= cap
    ensures Decode(Dec(Front(p) + more, out, d), cap) == Decode(Dec(more, out + p[..|p| - Carried(|p|)], d), cap)
  {
    hide Decode, LitRuns, PrintLiteral, Leftover;
    if Carried(|p|) == Leftover(|p|) {
      LitRunsRead(p, more, out, d, cap);
    } else {
      LiteralRoundTrip(p, more, out, d, cap);
      assert p[..|p|] == p;
    }
  }
}
