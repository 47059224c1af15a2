/** The literal loops of the LZFSE block coder as they run, over the stream objects. */
module FseLiteralCoder {
  import opened Arith
  import opened Words
  import opened FseTables
  import opened FseStream
  import opened FseLiterals

  /** fse_encode. */
  method PutSymbol(out: OutStream, t: seq<EncEntry>, ghost n: nat, ghost freq: seq<nat>, x: byte, s: nat) returns (s': nat)
    requires Coder(t, n, freq) && x < |freq| && freq[x] > 0 && s < n
    requires out.Valid() && out.nbits + Log(n) < 64
    modifies out`accum, out`nbits
    ensures out.Valid() && out.nbits <= old(out.nbits) + Log(n)
    ensures (s', out.Stack()) == EncodeOne(t, n, freq, x, s, old(out.Stack()))
  {
    hide Sum, Log, Pow2, DecTable;
    TablesInvert(t, n, freq, x, s);
    var e := t[x];
    var nbits := if s >= e.s0 then e.k else e.k - 1;
    var delta := if s >= e.s0 then e.delta0 else e.delta1;
    out.Push(nbits, s % Pow2(nbits));
    s' := delta + s / Pow2(nbits);
  }

  /** One turn of the literal loop: the fourth literal first, one flush for all four. */
  method PutGroup(out: OutStream, t: seq<EncEntry>, ghost n: nat, ghost freq: seq<nat>, g: seq<byte>,
                  s0: nat, s1: nat, s2: nat, s3: nat)
    returns (r0: nat, r1: nat, r2: nat, r3: nat)
    requires Coder(t, n, freq) && |g| == 4 && Used(freq, g) && s0 < n && s1 < n && s2 < n && s3 < n
    requires out.Valid() && out.nbits <= 7 && out.pos + 8 <= out.buf.Length && out.Stack().Fits()
    modifies out, out.buf
    ensures out.Valid() && out.nbits <= 7 && out.pos <= old(out.pos) + 7
    ensures out.buf[..old(out.pos)] == old(out.buf[..out.pos]) && old(out.pos) <= out.pos
    ensures Machine(r0, r1, r2, r3, out.Stack()) == EncodeGroup(t, n, freq, g, Machine(s0, s1, s2, s3, old(out.Stack())))
  {
    hide Sum, IsEncTable, Log, Pow2, EncodeOne, Held;
    FewStates(n);
    r3 := PutSymbol(out, t, n, freq, g[3], s3);
    r2 := PutSymbol(out, t, n, freq, g[2], s2);
    r1 := PutSymbol(out, t, n, freq, g[1], s1);
    r0 := PutSymbol(out, t, n, freq, g[0], s0);
    out.Flush();
  }

  /** The encoder runs out of room exactly when less than sixteen bytes are left before the
      last group it writes, which is the first of the literals. */
  ghost predicate Full(t: seq<EncEntry>, n: nat, freq: seq<nat>, lits: seq<byte>, before: seq<byte>, room: nat)
    requires Coder(t, n, freq) && |lits| % 4 == 0 && Used(freq, lits) && n > 0
  {
    && lits != []
    && (BeginIsGood(before, n); EncodeGroups(t, n, freq, lits[4..], Begin(before)).bits.count / 8 + 16 > room)
  }

  lemma {:induction false} CountGrows(t: seq<EncEntry>, n: nat, freq: seq<nat>, lits: seq<byte>, i: nat, m: Machine)
    requires Coder(t, n, freq) && |lits| % 4 == 0 && Used(freq, lits) && m.Good(n)
    requires i % 4 == 0 && i <= |lits|
    ensures EncodeGroups(t, n, freq, lits[i..], m).bits.count <= EncodeGroups(t, n, freq, lits, m).bits.count
    decreases i
  {
    hide EncodeGroup, IsEncTable, Sum, States;
    if i == 0 {
      assert lits[0..] == lits;
    } else {
      assert lits[4..][i - 4..] == lits[i..];
      CountGrows(t, n, freq, lits[4..], i - 4, m);
      assert lits != [];
    }
  }

  lemma OutOfRoom(t: seq<EncEntry>, n: nat, freq: seq<nat>, lits: seq<byte>, part: seq<byte>, i: nat, before: seq<byte>, room: nat)
    requires Coder(t, n, freq) && |lits| % 4 == 0 && Used(freq, lits) && n > 0 && i % 4 == 0 && 0 < i <= |lits|
    requires part == lits[i..] && |part| % 4 == 0 && Used(freq, part) && Begin(before).Good(n)
    requires EncodeGroups(t, n, freq, part, Begin(before)).bits.count / 8 + 16 > room
    ensures Full(t, n, freq, lits, before, room)
  {
    hide EncodeGroups, IsEncTable, Sum, States;
    assert lits[4..][i - 4..] == lits[i..];
    CountGrows(t, n, freq, lits[4..], i - 4, Begin(before));
  }

  lemma EnoughRoom(t: seq<EncEntry>, n: nat, freq: seq<nat>, lits: seq<byte>, before: seq<byte>, room: nat)
    requires Coder(t, n, freq) && |lits| % 4 == 0 && Used(freq, lits) && n > 0 && |lits| >= 4
    requires (BeginIsGood(before, n); EncodeGroups(t, n, freq, lits[4..], Begin(before)).bits.count / 8 + 16 <= room)
    ensures !Full(t, n, freq, lits, before, room)
  {
  }

  lemma NothingFits(t: seq<EncEntry>, n: nat, freq: seq<nat>, before: seq<byte>, room: nat)
    requires Coder(t, n, freq) && n > 0
    ensures !Full(t, n, freq, [], before, room)
  {
  }

  lemma NothingEncoded(t: seq<EncEntry>, n: nat, freq: seq<nat>, lits: seq<byte>, m: Machine)
    requires Coder(t, n, freq) && |lits| % 4 == 0 && Used(freq, lits) && m.Good(n)
    ensures lits[|lits|..] == [] && EncodeGroups(t, n, freq, lits[|lits|..], m) == m
  {
  }

  lemma GroupBefore(t: seq<EncEntry>, n: nat, freq: seq<nat>, lits: seq<byte>, i: nat, m: Machine)
    requires Coder(t, n, freq) && |lits| % 4 == 0 && Used(freq, lits) && m.Good(n)
    requires i % 4 == 0 && i + 4 <= |lits|
    ensures var part := lits[i..];
            && part[..4] == lits[i..i + 4] && part[4..] == lits[i + 4..]
            && EncodeGroups(t, n, freq, part, m)
               == EncodeGroup(t, n, freq, part[..4], EncodeGroups(t, n, freq, part[4..], m))
  {
    hide EncodeGroup, IsEncTable, Sum, States;
    assert lits[i..][4..] == lits[i + 4..] && lits[i..][..4] == lits[i..i + 4];
  }

  /** The literal loop of lzfse_encode_matches, from the last group to the first. */
  method EncodeLoop(out: OutStream, t: seq<EncEntry>, ghost n: nat, ghost freq: seq<nat>, lits: seq<byte>)
    returns (ok: bool, s0: nat, s1: nat, s2: nat, s3: nat)
    requires Coder(t, n, freq) && |lits| % 4 == 0 && Used(freq, lits) && n > 0
    requires out.Valid() && out.nbits == 0 && out.Stack() == Begin(out.buf[..out.pos]).bits
    modifies out, out.buf
    ensures out.Valid() && old(out.pos) <= out.pos && out.buf[..old(out.pos)] == old(out.buf[..out.pos])
    ensures !ok <==> Full(t, n, freq, lits, old(out.buf[..out.pos]), out.buf.Length)
    ensures ok && lits != [] ==> out.pos + 8 <= out.buf.Length
    ensures lits == [] ==> out.pos == old(out.pos)
    ensures ok ==> (BeginIsGood(old(out.buf[..out.pos]), n);
                    Machine(s0, s1, s2, s3, out.Stack()) == EncodeGroups(t, n, freq, lits, Begin(old(out.buf[..out.pos]))))
  {
    hide Sum, IsEncTable, Log, Pow2, EncodeGroup, EncodeGroups, Held, Value, States, Full;
    ghost var before, at := out.buf[..out.pos], out.pos;
    ghost var m0 := Begin(before);
    BeginIsGood(before, n);
    s0, s1, s2, s3 := 0, 0, 0, 0;
    NothingEncoded(t, n, freq, lits, m0);
    var i: nat := |lits|;
    while i > 0
      invariant i % 4 == 0 && i <= |lits| && out.Valid() && out.nbits <= 7 && at <= out.pos
      invariant s0 < n && s1 < n && s2 < n && s3 < n && out.Stack().Fits()
      invariant Machine(s0, s1, s2, s3, out.Stack()) == EncodeGroups(t, n, freq, lits[i..], m0)
      invariant out.buf[..at] == before
      invariant if i == |lits| then out.pos == at else out.pos + 8 <= out.buf.Length
      invariant i == 0 && lits != [] ==> !Full(t, n, freq, lits, before, out.buf.Length)
      decreases i
    {
      if out.pos + 16 > out.buf.Length {
        OutOfRoom(t, n, freq, lits, lits[i..], i, before, out.buf.Length);
        ok := false;
        return;
      }
      if i == 4 {
        EnoughRoom(t, n, freq, lits, before, out.buf.Length);
      }
      i := i - 4;
      GroupBefore(t, n, freq, lits, i, m0);
      s0, s1, s2, s3 := PutGroup(out, t, n, freq, lits[i..i + 4], s0, s1, s2, s3);
    }
    if lits == [] {
      NothingFits(t, n, freq, before, out.buf.Length);
    }
    assert lits[0..] == lits;
    ok := true;
  }

  /** The literal part of lzfse_encode_matches: the loop and the finish behind it. */
  method EncodeLiterals(t: seq<EncEntry>, ghost n: nat, ghost freq: seq<nat>, dst: array<byte>, at: nat, lits: seq<byte>)
    returns (p: Option<Payload>)
    requires Coder(t, n, freq) && |lits| % 4 == 0 && Used(freq, lits) && n > 0
    requires at <= dst.Length && (lits == [] ==> at + 8 <= dst.Length)
    modifies dst
    ensures dst[..at] == old(dst[..at])
    ensures p == None <==> Full(t, n, freq, lits, old(dst[..at]), dst.Length)
    ensures p.Some? ==> Describes(p.value, t, n, freq, lits, dst[..], at)
  {
    hide Sum, IsEncTable, Log, Pow2, EncodeGroups, Held, Value, States, Full, Used;
    BeginIsGood(dst[..at], n);
    var out := new OutStream(dst, at);
    var ok, s0, s1, s2, s3 := EncodeLoop(out, t, n, freq, lits);
    if !ok { return None; }
    out.Finish();
    p := Some(Payload(out.pos, out.nbits, s0, s1, s2, s3));
  }

  /** fse_decode. */
  method PullSymbol(input: InStream, table: seq<DecEntry>, ghost n: nat, s: nat) returns (x: byte, s': nat)
    requires Decoder(table, n) && s < n && input.Valid() && Log(n) <= input.nbits
    modifies input`accum, input`nbits
    ensures input.Valid() && input.nbits >= old(input.nbits) - Log(n) && s' < n
    ensures (x, s', input.Stack()) == DecodeOne(table, s, old(input.Stack()))
  {
    hide Log, Pow2, Held;
    HeldFits(input.buf[..input.pos], input.accum, input.nbits);
    DecodeOneSafe(table, n, s, input.Stack());
    var e := table[s];
    var b := input.Pull(e.k);
    x, s' := e.symbol, e.delta + b;
  }

  /** One turn of the literal loop of the decoder: one refill for four literals. */
  method PullGroup(input: InStream, table: seq<DecEntry>, ghost n: nat, s0: nat, s1: nat, s2: nat, s3: nat)
    returns (ok: bool, g: seq<byte>, r0: nat, r1: nat, r2: nat, r3: nat)
    requires Decoder(table, n) && s0 < n && s1 < n && s2 < n && s3 < n
    requires input.Valid() && input.Stack().Fits()
    modifies input`pos, input`accum, input`nbits
    ensures ok <==> old(input.Stack().count) >= 8 * input.start + 56
    ensures ok ==> Log(n) <= 14
    ensures ok ==> input.Valid() && r0 < n && r1 < n && r2 < n && r3 < n
                   && (g, Machine(r0, r1, r2, r3, input.Stack()))
                      == DecodeGroup(table, n, Machine(s0, s1, s2, s3, old(input.Stack())))
  {
    hide Log, Pow2, DecodeOne, Held;
    FewStates(n);
    g, r0, r1, r2, r3 := [], s0, s1, s2, s3;
    ok := input.Flush();
    if !ok { return; }
    var x0, x1, x2, x3;
    x0, r0 := PullSymbol(input, table, n, s0);
    x1, r1 := PullSymbol(input, table, n, s1);
    x2, r2 := PullSymbol(input, table, n, s2);
    x3, r3 := PullSymbol(input, table, n, s3);
    g := [x0, x1, x2, x3];
  }

  /** The literal part of lzfse_decode: it reads the payload that ends at `p.end` into
      `lits`, for every content of the buffer and every header. */
  method DecodeLiterals(table: seq<DecEntry>, ghost n: nat, buf: seq<byte>, start: nat, p: Payload, count: nat, lits: array<byte>)
    returns (ok: bool)
    requires Decoder(table, n) && start <= p.end <= |buf| && lits.Length >= 4 * count
    requires p.s0 < n && p.s1 < n && p.s2 < n && p.s3 < n
    modifies lits
    ensures Decode(table, n, buf, start, p, count) == if ok then Some(lits[..4 * count]) else None
  {
    hide Log, Pow2, Held, DecodeGroup, Value, Decoder;
    var input := new InStream(buf, start, p.end);
    ok := input.Init(p.bits);
    if !ok { return; }
    var s0: nat, s1: nat, s2: nat, s3: nat := p.s0, p.s1, p.s2, p.s3;
    ghost var m0 := Machine(s0, s1, s2, s3, input.Stack());
    PrependNothing(lits[..0], DecodeGroups(table, n, start, m0, count));
    for i := 0 to count
      invariant input.Valid() && input.Stack().Fits() && input.start == start
      invariant s0 < n && s1 < n && s2 < n && s3 < n
      invariant DecodeGroups(table, n, start, m0, count)
             == Prepend(lits[..4 * i], DecodeGroups(table, n, start, Machine(s0, s1, s2, s3, input.Stack()), count - i))
    {
      ghost var now := Machine(s0, s1, s2, s3, input.Stack());
      ghost var done := lits[..4 * i];
      var g;
      ok, g, s0, s1, s2, s3 := PullGroup(input, table, n, s0, s1, s2, s3);
      if !ok { return; }
      forall k | 0 <= k < 4 { lits[4 * i + k] := g[k]; }
      assert lits[..4 * (i + 1)] == done + g;
      NextGroup(table, n, start, now, count - i, done);
    }
    assert lits[..4 * count] + [] == lits[..4 * count];
    ok := true;
  }

  ghost function Prepend(done: seq<byte>, r: Option<(seq<byte>, Machine)>): Option<(seq<byte>, Machine)> {
    match r
    case None => None
    case Some((rest, m)) => Some((done + rest, m))
  }

  lemma PrependNothing(done: seq<byte>, r: Option<(seq<byte>, Machine)>)
    requires done == []
    ensures Prepend(done, r) == r
  {
    if r.Some? {
      assert [] + r.value.0 == r.value.0;
    }
  }

  lemma NextGroup(table: seq<DecEntry>, n: nat, start: nat, m: Machine, count: nat, done: seq<byte>)
    requires Decoder(table, n) && m.Good(n) && count > 0 && m.bits.count >= 8 * start + 56 && Log(n) <= 14
    ensures var (g, m1) := DecodeGroup(table, n, m);
            Prepend(done, DecodeGroups(table, n, start, m, count))
              == Prepend(done + g, DecodeGroups(table, n, start, m1, count - 1))
  {
    hide DecodeGroup, Decoder, Log;
    var (g, m1) := DecodeGroup(table, n, m);
    var r := DecodeGroups(table, n, start, m1, count - 1);
    if r.Some? {
      assert done + g + r.value.0 == done + (g + r.value.0);
    }
  }
}
