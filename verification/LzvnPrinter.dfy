/** The loops of emit: LZVN opcodes go to the output buffer until it is full. */
module LzvnPrinter {
  import opened Words
  import opened Lzvn

  /** The bytes `b` go to the output at `q`. */
  method Put(dst: array<byte>, q: nat, b: seq<byte>) returns (q': nat)
    requires q + |b| <= dst.Length
    modifies dst
    ensures q' == q + |b| && dst[..q'] == old(dst[..q]) + b
  {
    for i := 0 to |b|
      invariant dst[..q + i] == old(dst[..q]) + b[..i]
    {
      dst[q + i] := b[i];
      assert dst[..q + i + 1] == dst[..q + i] + [b[i]];
    }
    q' := q + |b|;
  }

  /** One long literal run. */
  method EmitRun(r: seq<byte>, dst: array<byte>, q0: nat) returns (q: nat)
    requires 16 <= |r| <= 271 && q0 + |r| + 2 <= dst.Length
    modifies dst
    ensures q == q0 + |r| + 2 && dst[..q] == old(dst[..q0]) + ([0xE0, |r| - 16] + r)
  {
    ghost var before := dst[..q0];
    q := Put(dst, q0, [0xE0, |r| - 16]);
    q := Put(dst, q, r);
    Regroup(before, [0xE0, |r| - 16], r);
  }

  /** The loop over long literal runs; `from` is where the rest of the literals starts. */
  method EmitRuns(p: seq<byte>, dst: array<byte>, q0: nat, q1: nat) returns (ok: bool, q: nat, from: nat)
    requires q0 <= q1 <= dst.Length
    modifies dst
    ensures q0 <= q <= q1 && dst[..q0] == old(dst[..q0])
    ensures ok ==> dst[..q] == old(dst[..q0]) + LitRuns(p) && from == |p| - Leftover(|p|)
    ensures !ok ==> q0 + |LitRuns(p)| + 10 > q1
  {
    hide LitRuns, Leftover;
    ghost var before := dst[..q0];
    q, from := q0, 0;
    var l: nat := |p|;
    assert p[0..] == p && dst[..q] + LitRuns(p) == before + LitRuns(p);
    while l > 15
      invariant q0 <= q <= q1 && from <= |p| && from + l == |p| && dst[..q0] == before
      invariant dst[..q] + LitRuns(p[from..]) == before + LitRuns(p)
      invariant Leftover(l) == Leftover(|p|)
      decreases l
    {
      var x: nat := if l < 271 then l else 271;
      ghost var rest := p[from..];
      LitRunsFirst(rest);
      assert rest[..x] == p[from..from + x] && rest[x..] == p[from + x..];
      assert |dst[..q] + LitRuns(rest)| == |before + LitRuns(p)|;
      if q + x + 10 >= q1 {
        ok := false;
        return;
      }
      ghost var done := dst[..q];
      q := EmitRun(p[from..from + x], dst, q);
      assert dst[..q0] == dst[..q][..q0] && before == done[..q0];
      Regroup(done, [0xE0, x - 16] + p[from..from + x], LitRuns(p[from + x..]));
      from, l := from + x, l - x;
    }
    LitRunsNone(p[from..]);
    assert dst[..q] + [] == dst[..q];
    ok := true;
  }

  /** The loop over what is left of the match. */
  method EmitMatch(m0: nat, dst: array<byte>, q0: nat, q1: nat) returns (ok: bool, q: nat)
    requires q0 <= q1 <= dst.Length
    modifies dst
    ensures q0 <= q <= q1 && dst[..q0] == old(dst[..q0])
    ensures ok ==> dst[..q] == old(dst[..q0]) + MatchRuns(m0)
    ensures !ok ==> q0 + |MatchRuns(m0)| + 10 > q1
  {
    ghost var before := dst[..q0];
    q := q0;
    var m: nat := m0;
    while m > 15
      invariant q0 <= q <= q1 && dst[..q0] == before
      invariant dst[..q] + MatchRuns(m) == before + MatchRuns(m0)
      decreases m
    {
      assert |dst[..q] + MatchRuns(m)| == |before + MatchRuns(m0)|;
      if q + 2 >= q1 {
        ok := false;
        return;
      }
      var x: nat := if m < 271 then m else 271;
      ghost var done := dst[..q];
      q := Put(dst, q, [0xF0, x - 16]);
      assert dst[..q0] == dst[..q][..q0] && before == done[..q0];
      Regroup(done, [0xF0, x - 16], MatchRuns(m - x));
      m := m - x;
    }
    assert |dst[..q] + MatchRuns(m)| == |before + MatchRuns(m0)|;
    if m > 0 {
      if q + 1 >= q1 {
        ok := false;
        return;
      }
      ghost var done := dst[..q];
      q := Put(dst, q, [0xF0 + m]);
      assert dst[..q0] == dst[..q][..q0] && before == done[..q0];
    }
    assert dst[..q] + [] == dst[..q];
    ok := true;
  }

  /** The literals that do not travel with the match. */
  method EmitFront(p: seq<byte>, dst: array<byte>, q0: nat, q1: nat) returns (ok: bool, q: nat, from: nat)
    requires q0 <= q1 <= dst.Length
    modifies dst
    ensures q0 <= q <= q1
    ensures ok ==> dst[..q] == old(dst[..q0]) + Front(p) && from == |p| - Carried(|p|)
    ensures !ok ==> q0 + |Front(p)| + 10 > q1
  {
    hide LitRuns, Leftover;
    ghost var before := dst[..q0];
    ok, q, from := EmitRuns(p, dst, q0, q1);
    if !ok { return; }
    var l := |p| - from;
    if l > 3 {
      if q + l + 10 >= q1 {
        ok := false;
        return;
      }
      q := Put(dst, q, [0xE0 + l]);
      q := Put(dst, q, p[from..]);
      assert dst[..q] == before + (LitRuns(p) + ([0xE0 + l] + p[from..]));
      from := |p|;
    }
  }

  /** emit: it prints the literals and the match, or finds the output full; ten bytes more
      than it prints are always enough. */
  method Emit(p: seq<byte>, dst: array<byte>, q0: nat, q1: nat, m: nat, d: nat, prev: nat) returns (ok: bool, q: nat)
    requires q0 <= q1 <= dst.Length && m >= 3 && 0 < d < MAX_DISTANCE
    modifies dst
    ensures q0 <= q <= q1
    ensures ok ==> dst[..q] == old(dst[..q0]) + Print(p, m, d, prev)
    ensures q0 + |Print(p, m, d, prev)| + 10 <= q1 ==> ok
  {
    hide LitRuns, Leftover, MatchRuns, Opcode, Taken, Front, Carried;
    ghost var before := dst[..q0];
    PrintParts(p, m, d, prev);
    var from;
    ok, q, from := EmitFront(p, dst, q0, q1);
    if !ok { return; }
    var l := |p| - from;
    if q + 8 >= q1 {
      ok := false;
      return;
    }
    var x := if m <= 10 - 2 * l then m else 10 - 2 * l;
    var rest := m - x;
    q, rest := EmitOpcode(p[from..], dst, q, m, rest, x - 3, d, prev);
    ok, q := EmitMatch(rest, dst, q, q1);
    if ok {
      Associate(before, Front(p), Opcode(l, m, d, prev) + p[from..], MatchRuns(rest));
    }
  }

  lemma PrintParts(p: seq<byte>, m: nat, d: nat, prev: nat)
    requires m >= 3 && 0 < d < MAX_DISTANCE
    ensures var l := Carried(|p|);
            Print(p, m, d, prev)
              == Front(p) + (Opcode(l, m, d, prev) + p[|p| - l..] + MatchRuns(m - Taken(l, m, d, prev)))
  {
    hide LitRuns, Leftover, MatchRuns, Opcode, Taken;
  }

  lemma Associate(a: seq<byte>, b: seq<byte>, c: seq<byte>, e: seq<byte>)
    ensures a + b + c + e == a + (b + (c + e))
  {
  }

  /** The bytes of the opcode, and what is left of the match behind it. */
  method OpcodeBytes(l: nat, m: nat, rest0: nat, x: nat, d: nat, prev: nat) returns (op: seq<byte>, rest: nat)
    requires l <= 3 && m >= 3 && 0 < d < MAX_DISTANCE
    requires x + 3 == FirstPart(l, m) && rest0 == m - (x + 3)
    ensures op == Opcode(l, m, d, prev) && rest == m - Taken(l, m, d, prev)
  {
    hide FirstPart;
    rest := rest0;
    if d == prev {
      op := [if l == 0 then 0xF0 + x + 3 else l * 64 + x * 8 + 6];
    } else if d < 2048 - 2 * 256 {
      op := [d / 256 + l * 64 + x * 8, d % 256];
    } else if d >= 0x4000 || rest == 0 || x + 3 + rest > 34 {
      op := [l * 64 + x * 8 + 7, d % 256, d / 256];
    } else {
      var y := x + rest;
      assert y == m - 3;
      rest := 0;
      var w := d * 4 + y % 4;
      op := [0xA0 + y / 4 + l * 8, w % 256, w / 256];
    }
  }

  /** The opcode in front of the last literals, and the literals. */
  method EmitOpcode(r: seq<byte>, dst: array<byte>, q0: nat, m: nat, rest0: nat, x: nat, d: nat, prev: nat)
    returns (q: nat, rest: nat)
    requires |r| <= 3 && m >= 3 && 0 < d < MAX_DISTANCE && q0 + 6 <= dst.Length
    requires x + 3 == FirstPart(|r|, m) && rest0 == m - (x + 3)
    modifies dst
    ensures q == q0 + |Opcode(|r|, m, d, prev)| + |r| <= dst.Length
    ensures dst[..q] == old(dst[..q0]) + (Opcode(|r|, m, d, prev) + r)
    ensures rest == m - Taken(|r|, m, d, prev)
  {
    hide Opcode, Taken;
    ghost var before := dst[..q0];
    var op;
    op, rest := OpcodeBytes(|r|, m, rest0, x, d, prev);
    q := Put(dst, q0, op);
    q := Put(dst, q, r);
    assert before + op + r == before + (op + r);
  }

  /** lzvn_emit_literal: the final literals. */
  method EmitLiteral(p: seq<byte>, dst: array<byte>, q0: nat, q1: nat) returns (ok: bool, q: nat)
    requires q0 <= q1 <= dst.Length
    modifies dst
    ensures q0 <= q <= q1 && dst[..q0] == old(dst[..q0])
    ensures ok ==> dst[..q] == old(dst[..q0]) + PrintLiteral(p)
    ensures !ok ==> q == q0
    ensures q0 + |PrintLiteral(p)| + 10 <= q1 ==> ok
  {
    hide LitRuns, Leftover;
    ghost var before := dst[..q0];
    var from;
    ok, q, from := EmitRuns(p, dst, q0, q1);
    if !ok { return false, q0; }
    var l := |p| - from;
    if l > 0 {
      if q + l + 10 >= q1 {
        return false, q0;
      }
      ghost var done := dst[..q];
      q := Put(dst, q, [0xE0 + l]);
      q := Put(dst, q, p[from..]);
      assert dst[..q] == before + (LitRuns(p) + ([0xE0 + l] + p[from..]));
      assert dst[..q0] == dst[..q][..q0];
    } else {
      assert dst[..q] == before + (LitRuns(p) + []);
    }
    if q >= q1 { return false, q0; }
  }

  /** lzvn_emit_end_of_stream: eight bytes, or none when there is no room for eight. */
  method EmitEnd(dst: array<byte>, q0: nat) returns (ok: bool, q: nat)
    requires q0 <= dst.Length
    modifies dst
    ensures ok <==> q0 + 8 <= dst.Length
    ensures if ok then q == q0 + 8 && dst[..q] == old(dst[..q0]) + [6, 0, 0, 0, 0, 0, 0, 0] else q == q0 && dst[..] == old(dst[..])
  {
    if dst.Length < q0 + 8 { return false, q0; }
    q := Put(dst, q0, [6, 0, 0, 0, 0, 0, 0, 0]);
    ok := true;
  }

  /** The end of lzvn_encode_partial: the final literals in front of eight bytes kept free,
      which always hold the end marker, even behind literals that did not fit. */
  method EmitTail(p: seq<byte>, dst: array<byte>, q0: nat) returns (ok: bool, q: nat)
    requires q0 + 8 <= dst.Length
    modifies dst
    ensures q <= dst.Length
    ensures dst[..q] == old(dst[..q0]) + (if ok then PrintLiteral(p) else []) + [6, 0, 0, 0, 0, 0, 0, 0]
    ensures q0 + |PrintLiteral(p)| + 18 <= dst.Length ==> ok
  {
    hide PrintLiteral;
    ghost var before := dst[..q0];
    ok, q := EmitLiteral(p, dst, q0, dst.Length - 8);
    assert !ok ==> dst[..q] == before + [];
    var done;
    done, q := EmitEnd(dst, q);
  }
}
