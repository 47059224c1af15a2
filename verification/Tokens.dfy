/** The meaning of LZ16: tokens that append literals and then copy a match, and the
    five parallel sections they are printed to, in two layouts. */
module Tokens {
  import opened Words
  import opened Nibbles

  const MATCH_OFFSET_MAX := 0x10_0000
  const LIMIT_LEN := 8
  const REST_LEN := 8

  // ------------------------------------------------------------------- meaning

  /** Literals, then `extra + 2` words copied from `dist` words back. */
  datatype Token = Token(lits: seq<word>, extra: nat, dist: nat)

  /** The forward, word-by-word copy; source and target may overlap. */
  function CopyMatch<T>(out: seq<T>, dist: nat, len: nat): (r: seq<T>)
    requires 1 <= dist <= |out|
    ensures |r| == |out| + len
    ensures r[..|out|] == out
    ensures forall k | |out| <= k < |r| :: r[k] == r[k - dist]
    decreases len
  {
    if len == 0 then out
    else
      var r := CopyMatch(out, dist, len - 1);
      r + [r[|r| - dist]]
  }

  ghost predicate Applies(out: seq<word>, t: Token) {
    1 <= t.dist < MATCH_OFFSET_MAX && t.dist <= |out| + |t.lits|
  }

  /** What a token appends; a distance that reaches before the start copies nothing. */
  function Apply(out: seq<word>, t: Token): (r: seq<word>)
    ensures Applies(out, t) ==> |r| == |out| + Consumed(t)
  {
    if 1 <= t.dist <= |out| + |t.lits| then CopyMatch(out + t.lits, t.dist, t.extra + 2) else out + t.lits
  }

  function Consumed(t: Token): nat {
    |t.lits| + t.extra + 2
  }

  function Expand(ts: seq<Token>): seq<word> {
    if ts == [] then [] else Apply(Expand(ts[..|ts| - 1]), ts[|ts| - 1])
  }

  /** All distances are short enough and reach back into what earlier tokens produced. */
  ghost predicate Valid(ts: seq<Token>) {
    ts == [] || (Valid(ts[..|ts| - 1]) && Applies(Expand(ts[..|ts| - 1]), ts[|ts| - 1]))
  }

  // ------------------------------------------------------------------ printing

  /** The five sections, the last one as nibbles. */
  datatype Streams = Streams(chars: seq<word>, dflag: seq<byte>, dist: seq<byte>, flag: seq<byte>, nibs: seq<nibble>)
  {
    function Plus(s: Streams): Streams {
      Streams(chars + s.chars, dflag + s.dflag, dist + s.dist, flag + s.flag, nibs + s.nibs)
    }
  }

  const Empty := Streams([], [], [], [], [])

  /** `Narrow` is the layout of levels 1 and 3, `Packed` the one of levels 2 and 4. */
  datatype Layout = Narrow | Packed

  /** The rest of a distance, below 2^20: five bits beside the token's identity, or four
      bits there and one or two bytes in the distance section. */
  function RestFlag(id: byte, rest: nat): byte
    requires id <= 0xC0 && rest < MATCH_OFFSET_MAX
  {
    if rest < 0x20 then id + rest
    else id + 0x10 * ((rest / 0x10 + 0xFF00) / 0x1_0000 + 2) + rest % 0x10
  }

  function RestBytes(rest: nat): (b: seq<byte>)
    requires rest < MATCH_OFFSET_MAX
    ensures |b| <= 2
  {
    if rest < 0x20 then []
    else
      var dis := rest / 0x10;
      if (dis + 0xFF00) / 0x1_0000 == 0 then [dis % 0x100] else [dis % 0x100, dis / 0x100]
  }

  /** A length field of `limit` in the flag byte says the remainder is in the nibbles. */
  function Capped(l: nat, limit: nat): (r: nat)
    ensures r <= limit && (r < limit ==> r == l)
  {
    if l >= limit then limit else l
  }

  function CappedCode(l: nat, limit: nat): seq<nibble> {
    if l >= limit then LengthCode(l - limit) else []
  }

  /** What one token adds to the sections, except for its literals' own words. */
  function PrintNarrow(n: nat, extra: nat, dist: nat): Streams
    requires 1 <= dist < MATCH_OFFSET_MAX
  {
    if extra > 0 then
      var rest := dist / 0x20;
      var id := if n > 0 then 0xC0 else 0x80;
      Streams([], [RestFlag(id, rest)], RestBytes(rest),
              [Capped(extra - 1, 7) * 0x20 + dist % 0x20],
              (if n > 0 then LengthCode(n - 1) else []) + CappedCode(extra - 1, 7))
    else if n > 0 then
      Streams([], [RestFlag(0x40, dist)], RestBytes(dist), [], LengthCode(n - 1))
    else
      Streams([], [RestFlag(0, dist)], RestBytes(dist), [], [])
  }

  function PrintPacked(n: nat, extra: nat, dist: nat): Streams
    requires 1 <= dist < MATCH_OFFSET_MAX
  {
    if n == 0 && extra > 0 then
      var rest := dist / 0x20;
      Streams([], [RestFlag(0x80, rest)], RestBytes(rest),
              [Capped(extra - 1, 7) * 0x20 + dist % 0x20], CappedCode(extra - 1, 7))
    else if n == 0 then
      var rest := dist / 0x100;
      Streams([], [RestFlag(0, rest)], RestBytes(rest), [], ByteCode(dist % 0x100))
    else if extra > 0 then
      var rest := dist / 0x8;
      Streams([], [RestFlag(0xC0, rest)], RestBytes(rest),
              [Capped(extra - 1, 7) * 0x20 + Capped(n - 1, 3) * 0x8 + dist % 0x8],
              CappedCode(n - 1, 3) + CappedCode(extra - 1, 7))
    else
      var rest := dist / 0x40;
      Streams([], [RestFlag(0x40, rest)], RestBytes(rest),
              [Capped(n - 1, 3) * 0x40 + dist % 0x40], CappedCode(n - 1, 3))
  }

  function Print(layout: Layout, t: Token): Streams
    requires 1 <= t.dist < MATCH_OFFSET_MAX
  {
    var s := if layout == Narrow then PrintNarrow(|t.lits|, t.extra, t.dist) else PrintPacked(|t.lits|, t.extra, t.dist);
    s.(chars := t.lits)
  }

  ghost predicate Printable(ts: seq<Token>) {
    forall i | 0 <= i < |ts| :: 1 <= ts[i].dist < MATCH_OFFSET_MAX
  }

  function PrintAll(layout: Layout, ts: seq<Token>): Streams
    requires Printable(ts)
  {
    if ts == [] then Empty
    else PrintAll(layout, ts[..|ts| - 1]).Plus(Print(layout, ts[|ts| - 1]))
  }

  lemma {:induction false} ValidIsPrintable(ts: seq<Token>)
    requires Valid(ts)
    ensures Printable(ts)
  {
    if ts == [] {
    } else {
      ValidIsPrintable(ts[..|ts| - 1]);
    }
  }

  /** Run length of the last block, in whole bytes of the flag section. */
  function TailRun(l: nat): seq<byte> {
    if l < 255 then [l] else [255] + TailRun(l - 255)
  }

  function TailFlag(n: nat): seq<byte> {
    if n < 15 then [n] else [15] + TailRun(n - 15)
  }

  /** The last block: its words, its length, an end marker, and the rest of the current
      half-written byte with one byte more if that byte is untouched. */
  function Finish(s: Streams, tail: seq<word>): Streams {
    Streams(s.chars + tail, s.dflag + [0], s.dist, s.flag + TailFlag(|tail|),
            s.nibs + (if |s.nibs| % 2 == 0 then [0, 0] else [0]))
  }
}
