/** Whole LZVN streams, and what single first bytes mean. */
module LzvnStream {
  import opened Arith
  import opened Words
  import Tokens
  import opened Lzvn

  // ----------------------------------------------------------- first bytes by value

  /** The bytes that no opcode begins with. */
  predicate Unused(b: byte) {
    b == 30 || b == 38 || b == 46 || b == 54 || b == 62 || 112 <= b <= 127 || 208 <= b <= 223
  }

  /** An end marker is the byte 6 and any seven others; nothing behind them is looked at. */
  lemma EndIsRead(pad: seq<byte>, after: seq<byte>, out: seq<byte>, d: nat, cap: nat)
    requires |pad| == 7 && |out| <= cap
    ensures Decode(Dec([6] + pad + after, out, d), cap) == (End, Dec(after, out, d))
  {
    hide Shared, Medium, CopyLiteral, CopyAgain;
    assert ([6] + pad + after)[8..] == after;
  }

  lemma EndIsTruncated(src: seq<byte>, out: seq<byte>, d: nat, cap: nat)
    requires 1 <= |src| < 8 && src[0] == 6 && |out| <= cap
    ensures Decode(Dec(src, out, d), cap) == (Truncated, Dec(src, out, d))
  {
    hide Shared, Medium, CopyLiteral, CopyAgain;
  }

  /** The bytes 14 and 22 are passed over. */
  lemma NopIsPassed(b: byte, rest: seq<byte>, out: seq<byte>, d: nat, cap: nat)
    requires (b == 14 || b == 22) && rest != [] && |out| <= cap
    ensures Decode(Dec([b] + rest, out, d), cap) == Decode(Dec(rest, out, d), cap)
  {
    hide Shared, Medium, CopyAgain, Decode;
    var st := Dec([b] + rest, out, d);
    assert st.src[1..] == rest && out + st.src[1..1] == out;
    assert Step(st, cap) == Next(Dec(rest, out, d));
    DecodeNext(st, cap);
  }

  /** A stream that begins with an unused byte is bad; one that consists of any other byte is
      no more than cut off. */
  lemma UnusedExactly(b: byte, rest: seq<byte>, out: seq<byte>, d: nat, cap: nat)
    requires |out| <= cap
    ensures Unused(b) ==> Decode(Dec([b] + rest, out, d), cap) == (Bad, Dec([b] + rest, out, d))
    ensures Decode(Dec([b], out, d), cap) == (if Unused(b) then Bad else Truncated, Dec([b], out, d))
  {
    hide CopyBoth, Decode, Step;
    SingleByte(b, out, d, cap);
    if Unused(b) {
      UnusedStops(b, rest, out, d, cap);
      DecodeStops(Dec([b] + rest, out, d), cap);
    }
    DecodeStops(Dec([b], out, d), cap);
  }

  lemma SingleByte(b: byte, out: seq<byte>, d: nat, cap: nat)
    requires |out| <= cap
    ensures Step(Dec([b], out, d), cap) == if Unused(b) then Bad else Truncated
  {
    hide CopyBoth;
    Bad6(b);
  }

  lemma UnusedStops(b: byte, rest: seq<byte>, out: seq<byte>, d: nat, cap: nat)
    requires |out| <= cap && Unused(b)
    ensures Step(Dec([b] + rest, out, d), cap) == Bad
  {
    hide CopyBoth, Shared, Medium, CopyLiteral, CopyAgain;
    Bad6(b);
  }

  lemma Bad6(b: byte)
    ensures b < 64 && b % 8 == 6 && b != 6 && b != 14 && b != 22 <==> b == 30 || b == 38 || b == 46 || b == 54 || b == 62
  {
  }

  lemma DecodeStops(st: Dec, cap: nat)
    requires |st.out| <= cap && !Step(st, cap).Next? && !Step(st, cap).End?
    ensures Decode(st, cap) == (Step(st, cap), st)
  {
    hide Step;
  }

  // ------------------------------------------------------------------ whole streams

  /** Literals and a match of `m` bytes at distance `d` behind them. */
  datatype Piece = Piece(lits: seq<byte>, m: nat, d: nat)

  /** What a piece stands for can be copied and has room. */
  predicate Possible(x: Piece, out: seq<byte>, cap: nat) {
    x.m >= 3 && 0 < x.d < 0x1_0000 && x.d <= |out| + |x.lits| && |out| + |x.lits| + x.m <= cap
  }

  function Expanded(x: Piece, out: seq<byte>): seq<byte>
    requires 1 <= x.d <= |out| + |x.lits|
  {
    Tokens.CopyMatch(out + x.lits, x.d, x.m)
  }

  predicate AllPossible(xs: seq<Piece>, out: seq<byte>, cap: nat) {
    xs != [] ==> Possible(xs[0], out, cap) && AllPossible(xs[1..], Expanded(xs[0], out), cap)
  }

  /** The opcodes of the pieces, in order; each takes the distance before it for its own. */
  function Opcodes(xs: seq<Piece>, out: seq<byte>, prev: nat, cap: nat): seq<byte>
    requires AllPossible(xs, out, cap)
  {
    if xs == [] then []
    else Print(xs[0].lits, xs[0].m, xs[0].d, prev) + Opcodes(xs[1..], Expanded(xs[0], out), xs[0].d, cap)
  }

  /** What the pieces append to `out`, and the last distance. */
  function AllExpanded(xs: seq<Piece>, out: seq<byte>, prev: nat, cap: nat): (r: (seq<byte>, nat))
    requires AllPossible(xs, out, cap)
  {
    if xs == [] then (out, prev) else AllExpanded(xs[1..], Expanded(xs[0], out), xs[0].d, cap)
  }

  lemma {:induction false} OpcodesRead(xs: seq<Piece>, rest: seq<byte>, out: seq<byte>, prev: nat, cap: nat)
    requires AllPossible(xs, out, cap) && rest != [] && |out| <= cap
    ensures var (out', d) := AllExpanded(xs, out, prev, cap);
            && |out'| <= cap
            && Decode(Dec(Opcodes(xs, out, prev, cap) + rest, out, prev), cap) == Decode(Dec(rest, out', d), cap)
    decreases |xs|
  {
    hide Decode, Print, Tokens.CopyMatch;
    if xs == [] {
      assert [] + rest == rest;
    } else {
      var x := xs[0];
      var more := Opcodes(xs[1..], Expanded(x, out), x.d, cap);
      Regroup(Print(x.lits, x.m, x.d, prev), more, rest);
      PrintRoundTrip(x.lits, x.m, x.d, prev, more + rest, out, cap);
      OpcodesRead(xs[1..], rest, Expanded(x, out), x.d, cap);
    }
  }

  /** A stream is decoded whole: pieces, final literals and the end marker. The decoder ends
      behind the marker, whatever follows it, and has written what the pieces and the
      literals stand for. */
  lemma StreamRoundTrip(xs: seq<Piece>, last: seq<byte>, after: seq<byte>, out: seq<byte>, prev: nat, cap: nat)
    requires AllPossible(xs, out, cap) && |out| < cap
    requires |AllExpanded(xs, out, prev, cap).0| + |last| <= cap
    ensures var (out', d) := AllExpanded(xs, out, prev, cap);
            LzvnDecode(Dec(Opcodes(xs, out, prev, cap) + PrintLiteral(last) + [6, 0, 0, 0, 0, 0, 0, 0] + after, out, prev), cap)
              == (End, Dec(after, out' + last, d))
  {
    hide Decode, Opcodes, AllExpanded, PrintLiteral;
    var (out', d) := AllExpanded(xs, out, prev, cap);
    var marker: seq<byte> := [6, 0, 0, 0, 0, 0, 0, 0];
    var tail := marker + after;
    assert Opcodes(xs, out, prev, cap) + PrintLiteral(last) + marker + after
        == Opcodes(xs, out, prev, cap) + (PrintLiteral(last) + tail);
    OpcodesRead(xs, PrintLiteral(last) + tail, out, prev, cap);
    LiteralRoundTrip(last, tail, out', d, cap);
    assert tail == [6] + [0, 0, 0, 0, 0, 0, 0] + after;
    EndIsRead([0, 0, 0, 0, 0, 0, 0], after, out' + last, d, cap);
  }

  // ------------------------------------------------------------- what is printed

  /** One byte for a repeated distance, two for a short one, three otherwise; the opcode takes
      the match whole if it is short enough for its form. */
  lemma OpcodeSize(l: nat, m: nat, d: nat, prev: nat)
    requires l <= 3 && m >= 3 && 0 < d < 0x1_0000
    ensures |Opcode(l, m, d, prev)| == if d == prev then 1 else if d < 1536 then 2 else 3
    ensures Taken(l, m, d, prev)
         == if m <= 10 - 2 * l || (d != prev && 1536 <= d < 16384 && m <= 34) then m else 10 - 2 * l
  {
  }
}
