/** The dispatch loop of lzvn_decode over a destination buffer. */
module LzvnParser {
  import opened Words
  import opened Tokens
  import opened Lzvn
  import WideCopy

  /** What one opcode asks for: literals, then a match at a distance. */
  datatype Op = Op(opcLen: nat, l: nat, m: nat, d: nat) | Literal(opcLen: nat, l: nat) | Again(opcLen: nat, m: nat) | Stop(why: Outcome)

  /** The meaning of an opcode at the front of `st.src`. */
  ghost function Meaning(op: Op, st: Dec, cap: nat): Outcome
    requires |st.out| <= cap
    requires op.Op? ==> |st.src| > op.opcLen + op.l
  {
    match op
    case Op(n, l, m, d) => CopyBoth(st, n, l, m, d, cap)
    case Literal(n, l) => CopyLiteral(st, n, l, cap)
    case Again(n, m) => CopyAgain(st, n, m, cap)
    case Stop(why) => why
  }

  /** The fields of the opcode with a literal length in its two high bits. */
  method ParseShared(src: seq<byte>, p: nat, d: nat, ghost out: seq<byte>, ghost cap: nat) returns (op: Op)
    requires p < |src| && |out| <= cap
    ensures op.Op? ==> |src[p..]| > op.opcLen + op.l
    ensures op.Stop? ==> !op.why.Next? && !op.why.End?
    ensures Meaning(op, Dec(src[p..], out, d), cap) == Shared(Dec(src[p..], out, d), cap)
  {
    hide CopyBoth;
    var opc: nat := src[p];
    var l, m := opc / 64, opc / 8 % 8 + 3;
    var opcLen := if opc % 8 == 6 then 1 else if opc % 8 == 7 then 3 else 2;
    if |src| - p <= opcLen + l { return Stop(Truncated); }
    if opcLen == 1 {
      op := Op(1, l, m, d);
    } else if opcLen == 3 {
      var high: nat := src[p + 2];
      op := Op(3, l, m, src[p + 1] + 256 * high);
    } else {
      op := Op(2, l, m, opc % 8 * 256 + src[p + 1]);
    }
  }

  method ParseMedium(src: seq<byte>, p: nat, ghost d: nat, ghost out: seq<byte>, ghost cap: nat) returns (op: Op)
    requires p < |src| && |out| <= cap
    ensures op.Op? ==> |src[p..]| > op.opcLen + op.l
    ensures op.Stop? ==> !op.why.Next? && !op.why.End?
    ensures Meaning(op, Dec(src[p..], out, d), cap) == Medium(Dec(src[p..], out, d), cap)
  {
    hide CopyBoth;
    var opc: nat := src[p];
    var l := opc / 8 % 4;
    if |src| - p <= 3 + l { return Stop(Truncated); }
    var high: nat := src[p + 2];
    var w := src[p + 1] + 256 * high;
    op := Op(3, l, opc % 8 * 4 + w % 4 + 3, w / 4);
  }

  /** The jump table. */
  method Parse(src: seq<byte>, p: nat, d: nat, ghost out: seq<byte>, ghost cap: nat) returns (op: Op)
    requires p <= |src| && |out| <= cap
    ensures op.Op? ==> |src[p..]| > op.opcLen + op.l
    ensures op.Stop? ==> !op.why.Next? && (op.why.End? ==> |src| - p >= 8)
    ensures Meaning(op, Dec(src[p..], out, d), cap) == Step(Dec(src[p..], out, d), cap)
  {
    hide CopyBoth, CopyLiteral, CopyAgain, Shared, Medium;
    if p == |src| { return Stop(Truncated); }
    var opc: nat := src[p];
    var left := |src| - p;
    if opc == 6 {
      op := Stop(if left < 8 then Truncated else End);
    } else if opc == 14 || opc == 22 {
      op := Literal(1, 0);
    } else if 0xA0 <= opc < 0xC0 {
      op := ParseMedium(src, p, d, out, cap);
    } else if opc == 0xE0 {
      if left <= 2 { return Stop(Truncated); }
      var n: nat := src[p + 1];
      op := Literal(2, n + 16);
    } else if 0xE0 < opc < 0xF0 {
      op := Literal(1, opc % 16);
    } else if opc == 0xF0 {
      if left <= 2 { return Stop(Truncated); }
      var n: nat := src[p + 1];
      op := Again(2, n + 16);
    } else if opc > 0xF0 {
      op := Again(1, opc % 16);
    } else if 0x70 <= opc < 0x80 || 0xD0 <= opc < 0xE0 || (opc < 64 && opc % 8 == 6) {
      op := Stop(Bad);
    } else {
      op := ParseShared(src, p, d, out, cap);
    }
  }

  method CopyIn(src: seq<byte>, p: nat, dst: array<byte>, q: nat, l: nat)
    requires p + l <= |src| && q + l <= dst.Length
    modifies dst
    ensures dst[..q + l] == old(dst[..q]) + src[p..p + l]
  {
    for i := 0 to l
      invariant dst[..q + i] == old(dst[..q]) + src[p..p + i]
    {
      dst[q + i] := src[p + i];
      assert dst[..q + i + 1] == dst[..q + i] + [src[p + i]];
      assert src[p..p + i + 1] == src[p..p + i] + [src[p + i]];
    }
  }

  method CopyBack(dst: array<byte>, q: nat, d: nat, m: nat)
    requires 1 <= d <= q && q + m <= dst.Length
    modifies dst
    ensures dst[..q + m] == CopyMatch(old(dst[..q]), d, m)
  {
    hide CopyMatch;
    for i := 0 to m
      invariant forall k | 0 <= k < q :: dst[k] == old(dst[k])
      invariant forall k | q <= k < q + i :: dst[k] == dst[k - d]
    {
      dst[q + i] := dst[q + i - d];
    }
    ghost var r := dst[..q + m];
    assert r[..q] == old(dst[..q]);
    WideCopy.CopyIsUnique(old(dst[..q]), d, m, r);
  }

  /** Literals and a match, with the checks in the program's order. */
  method ExecuteBoth(src: seq<byte>, p: nat, dst: array<byte>, q: nat, ghost d: nat, n: nat, l: nat, m: nat, dist: nat)
    returns (why: Option<Outcome>)
    requires p <= |src| && q <= dst.Length && |src[p..]| > n + l
    modifies dst
    ensures why.Some? ==> dst[..q] == old(dst[..q]) && !why.value.Next? && !why.value.End?
    ensures why == None ==> q + l + m <= dst.Length
    ensures CopyBoth(Dec(src[p..], old(dst[..q]), d), n, l, m, dist, dst.Length)
         == if why.Some? then why.value else Next(Dec(src[p + n + l..], dst[..q + l + m], dist))
  {
    hide CopyMatch;
    if q + l > dst.Length { return Some(Full); }
    CopyIn(src, p + n, dst, q, l);
    assert dst[..q + l][..q] == dst[..q];
    assert src[p..][n..n + l] == src[p + n..p + n + l] && src[p..][n + l..] == src[p + n + l..];
    if dist > q + l || dist == 0 { return Some(Bad); }
    if q + l + m > dst.Length { return Some(Full); }
    CopyBack(dst, q + l, dist, m);
    why := None;
  }

  method ExecuteLiteral(src: seq<byte>, p: nat, dst: array<byte>, q: nat, ghost d: nat, n: nat, l: nat) returns (why: Option<Outcome>)
    requires p <= |src| && q <= dst.Length
    modifies dst
    ensures why.Some? ==> dst[..q] == old(dst[..q]) && !why.value.Next? && !why.value.End?
    ensures why == None ==> p + n + l <= |src| && q + l <= dst.Length
    ensures CopyLiteral(Dec(src[p..], old(dst[..q]), d), n, l, dst.Length)
         == if why.Some? then why.value else Next(Dec(src[p + n + l..], dst[..q + l], d))
  {
    if |src| - p <= n + l { return Some(Truncated); }
    if q + l > dst.Length { return Some(Full); }
    CopyIn(src, p + n, dst, q, l);
    assert src[p..][n..n + l] == src[p + n..p + n + l] && src[p..][n + l..] == src[p + n + l..];
    why := None;
  }

  method ExecuteAgain(src: seq<byte>, p: nat, dst: array<byte>, q: nat, d: nat, n: nat, m: nat) returns (why: Option<Outcome>)
    requires p <= |src| && q <= dst.Length
    modifies dst
    ensures why.Some? ==> dst[..q] == old(dst[..q]) && !why.value.Next? && !why.value.End?
    ensures why == None ==> p + n <= |src| && q + m <= dst.Length
    ensures CopyAgain(Dec(src[p..], old(dst[..q]), d), n, m, dst.Length)
         == if why.Some? then why.value else Next(Dec(src[p + n..], dst[..q + m], d))
  {
    hide CopyMatch;
    if |src| - p <= n { return Some(Truncated); }
    if d == 0 || d > q { return Some(Undefined); }
    if q + m > dst.Length { return Some(Full); }
    CopyBack(dst, q, d, m);
    assert src[p..][n..] == src[p + n..];
    why := None;
  }

  /** The copies behind the dispatch; a stop leaves the cursors at the opcode, except that an
      end marker is taken. */
  method Execute(op: Op, src: seq<byte>, p: nat, dst: array<byte>, q: nat, d: nat)
    returns (why: Option<Outcome>, p': nat, q': nat, d': nat)
    requires p <= |src| && q <= dst.Length
    requires op.Op? ==> |src[p..]| > op.opcLen + op.l
    requires op.Stop? ==> !op.why.Next? && (op.why.End? ==> |src| - p >= 8)
    modifies dst
    ensures p <= p' <= |src| && q <= q' <= dst.Length
    ensures why.Some? ==> p' == (if why.value.End? then p + 8 else p) && q' == q && d' == d && dst[..q] == old(dst[..q]) && !why.value.Next?
    ensures Meaning(op, Dec(src[p..], old(dst[..q]), d), dst.Length)
         == if why.Some? then why.value else Next(Dec(src[p'..], dst[..q'], d'))
  {
    hide CopyMatch, CopyBoth, CopyLiteral, CopyAgain;
    p', q', d', why := p, q, d, None;
    match op {
      case Stop(r) =>
        why := Some(r);
        if r.End? {
          p' := p + 8;
        }
      case Literal(n, l) =>
        why := ExecuteLiteral(src, p, dst, q, d, n, l);
        if why == None {
          p', q' := p + n + l, q + l;
        }
      case Again(n, m) =>
        why := ExecuteAgain(src, p, dst, q, d, n, m);
        if why == None {
          p', q' := p + n, q + m;
        }
      case Op(n, l, m, dist) =>
        why := ExecuteBoth(src, p, dst, q, d, n, l, m, dist);
        if why == None {
          p', q', d' := p + n + l, q + l + m, dist;
        }
    }
  }

  /** lzvn_decode without saved state: for every source, the loop ends where and as the
      specification does, with the same output. */
  method DecodeAll(src: seq<byte>, dst: array<byte>, q0: nat, d0: nat) returns (why: Outcome, p: nat, q: nat, d: nat)
    requires q0 <= dst.Length
    modifies dst
    ensures p <= |src| && q <= dst.Length
    ensures (why, Dec(src[p..], dst[..q], d)) == LzvnDecode(Dec(src, old(dst[..q0]), d0), dst.Length)
  {
    hide Step, Decode, Meaning;
    p, q, d := 0, q0, d0;
    ghost var start := Dec(src, dst[..q0], d0);
    assert src[0..] == src;
    if src == [] { return Truncated, p, q, d; }
    if q == dst.Length { return Full, p, q, d; }
    var stop: Option<Outcome> := None;
    while stop == None
      invariant p <= |src| && q <= dst.Length
      invariant stop == None ==> Decode(start, dst.Length) == Decode(Dec(src[p..], dst[..q], d), dst.Length)
      invariant stop.Some? ==> Decode(start, dst.Length) == (stop.value, Dec(src[p..], dst[..q], d))
      decreases stop == None, |src| - p
    {
      ghost var st := Dec(src[p..], dst[..q], d);
      var op := Parse(src, p, d, dst[..q], dst.Length);
      stop, p, q, d := Execute(op, src, p, dst, q, d);
      Unfold(st, dst.Length);
    }
    why := stop.value;
  }

  lemma Unfold(st: Dec, cap: nat)
    requires |st.out| <= cap
    ensures var r := Step(st, cap);
            && (r.End? ==> |st.src| >= 8)
            && (r.Next? ==> |r.st.src| < |st.src| && Decode(st, cap) == Decode(r.st, cap))
            && (!r.Next? ==> Decode(st, cap) == (r, if r.End? then st.(src := st.src[8..]) else st))
  {
    hide Step;
  }
}
